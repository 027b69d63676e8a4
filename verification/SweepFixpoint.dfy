/** Repeated sweeps over an unchanging network: they reach a fixed point, and what is tracked then
    is a matter of reachability alone, independent of the per-sweep cap and of any order. */
module SweepFixpoint {
  import opened Basics
  import opened Snmp
  import opened DeviceTable
  import opened HealthCheck
  import opened DiscoverySweep
  import opened SweepExact

  const ANY_CLIENT := V2c("")

  /** Probe and walk outcomes depend only on the target address. */
  ghost predicate Uniform(net: Network) {
    && (forall ip, c :: net.answers(ip, c) == net.answers(ip, ANY_CLIENT))
    && (forall ip, c :: net.routes(ip, c) == net.routes(ip, ANY_CLIENT))
  }

  ghost predicate NeverFailsToSeal(key: Key) {
    forall p, n :: key.seal(p, n).Some?
  }

  ghost predicate Steady(e: Env) {
    Uniform(e.net) && Sound(e.key) && NeverFailsToSeal(e.key)
  }

  predicate Answers(e: Env, ip: Ip) {
    e.net.answers(ip, ANY_CLIENT)
  }

  /** The private next hops in the routing table of an address. */
  ghost function Neighbours(e: Env, ip: Ip): set<Ip> {
    match e.net.routes(ip, ANY_CLIENT)
    case None => {}
    case Some(pdus) => PrivateOf(e, NextHops(pdus))
  }

  /** A row a sweep can walk: active, with credentials that decrypt and build a client. */
  predicate Walkable(e: Env, r: Row) {
    && r.At(Status) == Text("active")
    && DecryptCredentials(r, e.key).Some?
    && BuildClient(DecryptCredentials(r, e.key).value).Some?
  }

  lemma PrivateHopsOfWalkable(e: Env, r: Row)
    requires Steady(e)
    ensures Walkable(e, r) ==> PrivateHops(e, r) == Neighbours(e, r.ip)
    ensures r.At(Status) == Text("active") && !Walkable(e, r) ==> PrivateHops(e, r) == {}
  {
  }

  /** A chain of discovery in terms of the initial table: it starts at a walkable row, each address is a
      private next hop of the one before, and the addresses in between are newly found devices that
      answer while credentials are duplicated, and so are walked in turn. */
  ghost predicate Chain(e: Env, t0: Table, path: seq<Ip>) {
    && |path| >= 2
    && (exists r :: r in t0.rows && Walkable(e, r) && r.ip == path[0])
    && (forall k :: 1 <= k < |path| ==> path[k] in Neighbours(e, path[k - 1]))
    && (forall k :: 1 <= k < |path| - 1 ==> e.duplicate && Answers(e, path[k]) && path[k] !in Ips(t0.rows))
  }

  ghost predicate Reachable(e: Env, t0: Table, ip: Ip) {
    exists path :: Chain(e, t0, path) && path[|path| - 1] == ip
  }

  function Iterate(e: Env, t: Table, n: nat): Table
    decreases n
  {
    if n == 0 then t else Iterate(e, Sweep(e, t).0, n - 1)
  }

  // ---------------------------------------------------------------- what an inserted row looks like

  /** What stays true of every row that some sweep inserted. */
  ghost predicate Found(e: Env, t0: Table, r: Row) {
    && Scannable(r)
    && (r.At(Status) == Text("active") <==> e.duplicate && Answers(e, r.ip))
    && (r.At(Status) == Text("active") ==> Walkable(e, r))
    && Reachable(e, t0, r.ip)
  }

  lemma BornRow(e: Env, r: Row, p: Row)
    requires Steady(e) && BornOf(e, r, p)
    ensures Scannable(r)
    ensures r.At(Status) == Text("active") <==> e.duplicate && Answers(e, r.ip)
    ensures r.At(Status) == Text("active") ==> Walkable(e, r)
    ensures Walked(e, p).Some?
  {
    var creds := Walked(e, p).value.0;
    InsertedRowReads(r, Discovered(e, r.ip, creds));
    assert BuildClient(creds).Some?;
    DiscoveredStatus(e, r.ip, creds);
    if e.duplicate {
      DecryptUndoesEncrypt(e.key, creds.community, e.nonce(r.ip));
      assert DecryptCredentials(r, e.key) == Some(CommunityOnly(creds.version, creds.community));
      assert BuildClient(CommunityOnly(creds.version, creds.community)).Some?;
    }
  }

  lemma DiscoveredStatus(e: Env, ip: Ip, creds: Credentials)
    requires Steady(e) && BuildClient(creds).Some?
    ensures Discovered(e, ip, creds).status
         == if !e.duplicate then "pending" else if Answers(e, ip) then "active" else "failed"
  {
  }

  lemma ChainExtends(e: Env, t0: Table, ip: Ip, next: Ip)
    requires Reachable(e, t0, ip) && e.duplicate && Answers(e, ip) && ip !in Ips(t0.rows)
    requires next in Neighbours(e, ip)
    ensures Reachable(e, t0, next)
  {
    hide Neighbours, Answers, Ips, Walkable;
    var path :| Chain(e, t0, path) && path[|path| - 1] == ip;
    var longer := path + [next];
    assert forall k :: 0 <= k < |path| ==> longer[k] == path[k];
    assert Chain(e, t0, longer);
    assert longer[|longer| - 1] == next;
  }

  lemma ChainStarts(e: Env, t0: Table, r: Row, next: Ip)
    requires r in t0.rows && Walkable(e, r) && next in Neighbours(e, r.ip)
    ensures Reachable(e, t0, next)
  {
    var path := [r.ip, next];
    assert Chain(e, t0, path);
    assert path[|path| - 1] == next;
  }

  // ---------------------------------------------------------------- the invariant of iteration

  ghost predicate Inv(e: Env, t0: Table, t: Table) {
    && Valid(t)
    && |t0.rows| <= |t.rows| && t.rows[..|t0.rows|] == t0.rows
    && (forall r :: r in t.rows[|t0.rows|..] ==> Found(e, t0, r) && r.ip !in Ips(t0.rows))
  }

  lemma InvRow(e: Env, t0: Table, t: Table, r: Row)
    requires Inv(e, t0, t) && r in t.rows
    ensures r in t0.rows || (Found(e, t0, r) && r.ip !in Ips(t0.rows))
  {
    var i :| 0 <= i < |t.rows| && t.rows[i] == r;
    if i < |t0.rows| {
      assert t.rows[..|t0.rows|][i] == r;
    } else {
      assert t.rows[|t0.rows|..][i - |t0.rows|] == r;
    }
  }

  lemma ActiveStayScannable(e: Env, t0: Table, t: Table)
    requires Inv(e, t0, t) && AllScannable(ActiveRows(t0))
    ensures AllScannable(ActiveRows(t))
  {
    WithStatusExact(t.rows, "active");
    WithStatusExact(t0.rows, "active");
    forall r | r in ActiveRows(t) ensures Scannable(r) {
      InvRow(e, t0, t, r);
      if r in t0.rows {
        assert r in ActiveRows(t0);
      }
    }
  }

  /** A row born of an active row of a reachable table is reachable too. */
  lemma BornReachable(e: Env, t0: Table, t: Table, r: Row, p: Row)
    requires Steady(e) && Inv(e, t0, t) && p in ActiveRows(t) && BornOf(e, r, p)
    ensures Reachable(e, t0, r.ip)
  {
    WithStatusExact(t.rows, "active");
    InvRow(e, t0, t, p);
    PrivateHopsOfWalkable(e, p);
    if p in t0.rows {
      ChainStarts(e, t0, p, r.ip);
    } else {
      ChainExtends(e, t0, p.ip, r.ip);
    }
  }

  lemma SweepKeepsInv(e: Env, t0: Table, t: Table)
    requires Steady(e) && Inv(e, t0, t) && AllScannable(ActiveRows(t0))
    ensures Inv(e, t0, Sweep(e, t).0)
  {
    var t' := Sweep(e, t).0;
    SweepKeepsValid(e, t);
    ActiveStayScannable(e, t0, t);
    var added := SweepAdded(e, t);
    forall r | r in added ensures Found(e, t0, r) && r.ip !in Ips(t0.rows) {
      AddedFound(e, t0, t, r);
      IpsPrefix(t, |t0.rows|, r.ip);
    }
    PrefixOfPrefix(t0.rows, t.rows, added);
  }

  lemma AddedFound(e: Env, t0: Table, t: Table, r: Row)
    requires Steady(e) && Inv(e, t0, t) && BornOfActive(e, t, r)
    ensures Found(e, t0, r)
  {
    var p :| p in ActiveRows(t) && BornOf(e, r, p);
    BornRow(e, r, p);
    BornReachable(e, t0, t, r, p);
  }

  lemma PrefixOfPrefix(a: seq<Row>, b: seq<Row>, added: seq<Row>)
    requires |a| <= |b| && b[..|a|] == a
    ensures (b + added)[..|a|] == a && (b + added)[|a|..] == b[|a|..] + added
  {
  }

  lemma IpsPrefix(t: Table, k: nat, ip: Ip)
    requires k <= |t.rows|
    ensures ip in Ips(t.rows[..k]) ==> ip in Ips(t.rows)
  {
    IpsMember(t.rows[..k], ip);
    IpsMember(t.rows, ip);
  }

  lemma {:induction false} IterateKeepsInv(e: Env, t0: Table, t: Table, n: nat)
    requires Steady(e) && AllScannable(ActiveRows(t0)) && Inv(e, t0, t)
    ensures Inv(e, t0, Iterate(e, t, n))
    decreases n
  {
    if n > 0 {
      SweepKeepsInv(e, t0, t);
      IterateKeepsInv(e, t0, Sweep(e, t).0, n - 1);
    }
  }

  // ---------------------------------------------------------------- termination

  lemma {:induction false} SweepHopsCounter(e: Env, t: Table, parentIp: Ip, creds: Credentials, hops: seq<Ip>, count: nat)
    ensures var t' := SweepHops(e, t, parentIp, creds, hops, count).0; t'.lastId - |t'.rows| == t.lastId - |t.rows|
    decreases |hops|
  {
    if hops != [] && count < MAX_NEW_DEVICES_PER_SWEEP {
      var (t1, inserted) := VisitHop(e, t, parentIp, creds, hops[0]);
      SweepHopsCounter(e, t1, parentIp, creds, hops[1..], if inserted then count + 1 else count);
    }
  }

  lemma {:induction false} SweepParentsCounter(e: Env, t: Table, parents: seq<Row>, count: nat)
    ensures var t' := SweepParents(e, t, parents, count).0; t'.lastId - |t'.rows| == t.lastId - |t.rows|
    decreases |parents|
  {
    if parents != [] && count < MAX_NEW_DEVICES_PER_SWEEP {
      match Walked(e, parents[0]) {
        case None => SweepParentsCounter(e, t, parents[1..], count);
        case Some((creds, hops)) =>
          SweepHopsCounter(e, t, parents[0].ip, creds, hops, count);
          var (t1, count1) := SweepHops(e, t, parents[0].ip, creds, hops, count);
          SweepParentsCounter(e, t1, parents[1..], count1);
      }
    }
  }

  /** A table that a further sweep leaves as it is. */
  predicate Stable(e: Env, t: Table) {
    Sweep(e, t) == (t, 0)
  }

  lemma StableIffAllTracked(e: Env, t: Table)
    requires Valid(t) && AllScannable(ActiveRows(t))
    ensures Stable(e, t) <==> Wanted(e, ActiveRows(t)) <= Ips(t.rows)
  {
    hide Wanted, Ips, Valid, AllScannable, SweepParents;
    var wanted := Wanted(e, ActiveRows(t));
    var added := SweepAdded(e, t);
    SweepParentsCounter(e, t, ActiveRows(t), 0);
    if wanted <= Ips(t.rows) {
      assert wanted - Ips(t.rows) == {};
      assert added == [];
      assert Sweep(e, t).0 == t;
    } else {
      var ip :| ip in wanted && ip !in Ips(t.rows);
      assert ip in wanted - Ips(t.rows);
      assert |wanted - Ips(t.rows)| > 0;
    }
  }

  /** The topology is finite: whatever row a sweep walks, and with whatever credentials, the private next
      hops it meets lie in `universe`. */
  ghost predicate Within(e: Env, universe: set<Ip>) {
    forall r: Row :: PrivateHops(e, r) <= universe
  }

  lemma WantedWithin(e: Env, t: Table, universe: set<Ip>)
    requires Within(e, universe)
    ensures Wanted(e, ActiveRows(t)) <= universe
  {
    WantedExact(e, ActiveRows(t));
  }

  /** An unstable table tracks strictly more of the universe after a sweep. */
  lemma SweepShrinksUntracked(e: Env, t: Table, universe: set<Ip>)
    requires Valid(t) && !Stable(e, t)
    requires Within(e, universe)
    ensures |universe - Ips(Sweep(e, t).0.rows)| < |universe - Ips(t.rows)|
  {
    hide Valid, Within;
    UnscannableIsStable(e, t);
    var ip := UnstableAdds(e, t);
    WantedWithin(e, t, universe);
    StrictlySmaller(universe - Ips(Sweep(e, t).0.rows), universe - Ips(t.rows), ip);
  }

  /** A sweep that cannot read its parents does nothing. */
  lemma UnscannableIsStable(e: Env, t: Table)
    ensures !AllScannable(ActiveRows(t)) ==> Stable(e, t)
  {
  }

  lemma UnstableAdds(e: Env, t: Table) returns (ip: Ip)
    requires Valid(t) && AllScannable(ActiveRows(t)) && !Stable(e, t)
    ensures ip in Wanted(e, ActiveRows(t)) && ip !in Ips(t.rows) && ip in Ips(Sweep(e, t).0.rows)
    ensures Ips(t.rows) <= Ips(Sweep(e, t).0.rows)
  {
    StableIffAllTracked(e, t);
    var untracked := Wanted(e, ActiveRows(t)) - Ips(t.rows);
    assert untracked != {};
    assert |untracked| > 0;
    var added := SweepAdded(e, t);
    ip := added[0].ip;
    IpsConcat(t.rows, added);
    IpsMember(added, ip);
  }

  lemma StrictlySmaller(a: set<Ip>, b: set<Ip>, x: Ip)
    requires a <= b && x in b && x !in a
    ensures |a| < |b|
  {
    assert b == a + (b - a);
    assert x in b - a;
  }

  lemma {:induction false} StableForever(e: Env, t: Table, n: nat)
    requires Stable(e, t)
    ensures Iterate(e, t, n) == t
    decreases n
  {
    if n > 0 {
      StableForever(e, t, n - 1);
    }
  }

  /** Termination over any finite topology, whatever the credentials decide and whatever fails to encrypt:
      once the number of sweeps reaches the number of untracked discoverable addresses, a further sweep
      changes nothing. */
  lemma {:induction false} SweepsTerminate(e: Env, t: Table, universe: set<Ip>, n: nat)
    requires Valid(t) && Within(e, universe)
    requires n >= |universe - Ips(t.rows)|
    ensures Stable(e, Iterate(e, t, n))
    decreases n
  {
    hide Stable, Sweep, Valid, Ips, Within;
    if Stable(e, t) {
      StableForever(e, t, n);
    } else {
      SweepShrinksUntracked(e, t, universe);
      SweepKeepsValid(e, t);
      SweepsTerminate(e, Sweep(e, t).0, universe, n - 1);
    }
  }

  // ---------------------------------------------------------------- the fixed point

  /** In a stable table every neighbour of a walkable row is tracked. */
  lemma StableIsClosed(e: Env, t: Table, r: Row, next: Ip)
    requires Steady(e) && Valid(t) && AllScannable(ActiveRows(t)) && Stable(e, t)
    requires r in t.rows && Walkable(e, r) && next in Neighbours(e, r.ip)
    ensures next in Ips(t.rows)
  {
    StableIffAllTracked(e, t);
    WithStatusExact(t.rows, "active");
    PrivateHopsOfWalkable(e, r);
    WantedExact(e, ActiveRows(t));
    assert r in ActiveRows(t);
  }

  /** Address k of a chain has a walkable row in every stable table that grew from the initial one. */
  lemma {:induction false} ChainWalked(e: Env, t0: Table, t: Table, path: seq<Ip>, k: nat) returns (r: Row)
    requires Steady(e) && AllScannable(ActiveRows(t0)) && Inv(e, t0, t) && Stable(e, t)
    requires Chain(e, t0, path) && k < |path| - 1
    ensures r in t.rows && Walkable(e, r) && r.ip == path[k]
  {
    if k == 0 {
      r :| r in t0.rows && Walkable(e, r) && r.ip == path[0];
      var i :| 0 <= i < |t0.rows| && t0.rows[i] == r;
      assert t.rows[..|t0.rows|][i] == t.rows[i];
    } else {
      var previous := ChainWalked(e, t0, t, path, k - 1);
      ActiveStayScannable(e, t0, t);
      StableIsClosed(e, t, previous, path[k]);
      IpsMember(t.rows, path[k]);
      var i :| 0 <= i < |t.rows| && t.rows[i].ip == path[k];
      r := t.rows[i];
      InvRow(e, t0, t, r);
      IpsMember(t0.rows, path[k]);
    }
  }

  lemma StableTracksReachable(e: Env, t0: Table, t: Table, ip: Ip)
    requires Steady(e) && AllScannable(ActiveRows(t0)) && Inv(e, t0, t) && Stable(e, t)
    requires Reachable(e, t0, ip)
    ensures ip in Ips(t.rows)
  {
    var path :| Chain(e, t0, path) && path[|path| - 1] == ip;
    var r := ChainWalked(e, t0, t, path, |path| - 2);
    ActiveStayScannable(e, t0, t);
    StableIsClosed(e, t, r, ip);
  }

  lemma TrackedIsReachable(e: Env, t0: Table, t: Table, ip: Ip)
    requires Inv(e, t0, t) && ip in Ips(t.rows)
    ensures ip in Ips(t0.rows) || Reachable(e, t0, ip)
  {
    IpsMember(t.rows, ip);
    IpsMember(t0.rows, ip);
    var i :| 0 <= i < |t.rows| && t.rows[i].ip == ip;
    InvRow(e, t0, t, t.rows[i]);
  }

  /** After enough sweeps the tracked addresses are the initial ones and the ones reachable through
      chains of active devices, and nothing else. The cap of a sweep does not appear in the answer. */
  lemma FixpointIsReachability(e: Env, t: Table, universe: set<Ip>, n: nat, ip: Ip)
    requires Steady(e) && Valid(t) && AllScannable(ActiveRows(t))
    requires Within(e, universe)
    requires n >= |universe - Ips(t.rows)|
    ensures ip in Ips(Iterate(e, t, n).rows) <==> ip in Ips(t.rows) || Reachable(e, t, ip)
  {
    var last := Iterate(e, t, n);
    IterateKeepsInv(e, t, t, n);
    SweepsTerminate(e, t, universe, n);
    if ip in Ips(last.rows) {
      TrackedIsReachable(e, t, last, ip);
    }
    if Reachable(e, t, ip) {
      StableTracksReachable(e, t, last, ip);
    }
    if ip in Ips(t.rows) {
      IpsPrefix(last, |t.rows|, ip);
    }
  }
}
