/** Which devices one sweep inserts when there are more than its cap, and what their rows say. */
module SweepOrder {
  import opened Basics
  import opened Snmp
  import opened DeviceTable
  import opened HealthCheck
  import opened DiscoverySweep
  import opened SweepExact

  /** All next hops a sweep can meet: parent by parent, each parent's in the order of its walk. */
  function AllHops(e: Env, parents: seq<Row>): seq<Ip> {
    if parents == [] then []
    else
      (match Walked(e, parents[0])
       case None => []
       case Some((_, hops)) => hops) + AllHops(e, parents[1..])
  }

  /** The private addresses that are not tracked, each where it comes first. */
  function FirstNew(isPrivate: Ip -> bool, tracked: set<Ip>, hops: seq<Ip>): seq<Ip>
    decreases |hops|
  {
    if hops == [] then []
    else if isPrivate(hops[0]) && hops[0] !in tracked then [hops[0]] + FirstNew(isPrivate, tracked + {hops[0]}, hops[1..])
    else FirstNew(isPrivate, tracked, hops[1..])
  }

  function Upto<T>(s: seq<T>, n: nat): seq<T> {
    if n < |s| then s[..n] else s
  }

  function Members(s: seq<Ip>): set<Ip> {
    set x | x in s
  }

  function Addresses(rows: seq<Row>): seq<Ip> {
    seq(|rows|, i requires 0 <= i < |rows| => rows[i].ip)
  }

  // ---------------------------------------------------------------- the list

  lemma {:induction false} FirstNewConcat(isPrivate: Ip -> bool, tracked: set<Ip>, a: seq<Ip>, b: seq<Ip>)
    ensures FirstNew(isPrivate, tracked, a + b)
         == FirstNew(isPrivate, tracked, a) + FirstNew(isPrivate, tracked + Members(FirstNew(isPrivate, tracked, a)), b)
    decreases |a|
  {
    if a == [] {
      assert a + b == b;
      assert Members([]) == {} && tracked + {} == tracked;
    } else {
      assert (a + b)[1..] == a[1..] + b && (a + b)[0] == a[0];
      if isPrivate(a[0]) && a[0] !in tracked {
        var rest := FirstNew(isPrivate, tracked + {a[0]}, a[1..]);
        FirstNewConcat(isPrivate, tracked + {a[0]}, a[1..], b);
        MembersCons(a[0], rest, tracked);
        ConcatAssociative([a[0]], rest, FirstNew(isPrivate, tracked + {a[0]} + Members(rest), b));
      } else {
        FirstNewConcat(isPrivate, tracked, a[1..], b);
      }
    }
  }

  lemma MembersCons(x: Ip, s: seq<Ip>, tracked: set<Ip>)
    ensures tracked + {x} + Members(s) == tracked + Members([x] + s)
  {
  }

  lemma UptoCons<T>(x: T, s: seq<T>, n: nat)
    requires n > 0
    ensures Upto([x] + s, n) == [x] + Upto(s, n - 1)
  {
  }

  lemma UptoConcat<T>(a: seq<T>, b: seq<T>, n: nat)
    ensures |a| >= n ==> Upto(a + b, n) == Upto(a, n)
    ensures |a| < n ==> Upto(a + b, n) == a + Upto(b, n - |a|)
  {
  }

  lemma AddressesConcat(a: seq<Row>, b: seq<Row>)
    ensures Addresses(a + b) == Addresses(a) + Addresses(b)
  {
  }

  lemma {:induction false} MembersOfRows(rows: seq<Row>)
    ensures Members(Addresses(rows)) == Ips(rows)
  {
    if rows == [] {
    } else {
      var front, last := rows[..|rows| - 1], rows[|rows| - 1];
      MembersOfRows(front);
      assert Addresses(rows) == Addresses(front) + [last.ip];
      assert Members(Addresses(rows)) == Members(Addresses(front)) + {last.ip};
    }
  }

  // ---------------------------------------------------------------- the loops

  /** The rows appended are, in order, for the first of these addresses, as many as the cap leaves room for. */
  ghost predicate AppendsFirst(rows: seq<Row>, rows': seq<Row>, added: seq<Ip>, count: nat, n: nat) {
    && |rows| <= |rows'| && rows'[..|rows|] == rows
    && count <= n <= MAX_NEW_DEVICES_PER_SWEEP
    && Addresses(rows'[|rows|..]) == Upto(added, MAX_NEW_DEVICES_PER_SWEEP - count)
    && n == count + |rows'| - |rows|
  }

  lemma AppendsNothing(rows: seq<Row>, added: seq<Ip>, count: nat)
    requires count <= MAX_NEW_DEVICES_PER_SWEEP && (added == [] || count == MAX_NEW_DEVICES_PER_SWEEP)
    ensures AppendsFirst(rows, rows, added, count, count)
  {
    assert rows[|rows|..] == [];
    assert Upto(added, MAX_NEW_DEVICES_PER_SWEEP - count) == [];
  }

  lemma AppendsOneMore(rows: seq<Row>, r: Row, rows': seq<Row>, added: seq<Ip>, count: nat, n: nat)
    requires count < MAX_NEW_DEVICES_PER_SWEEP && AppendsFirst(rows + [r], rows', added, count + 1, n)
    ensures AppendsFirst(rows, rows', [r.ip] + added, count, n)
  {
    UptoCons(r.ip, added, MAX_NEW_DEVICES_PER_SWEEP - count);
    assert rows'[..|rows|] == rows'[..|rows| + 1][..|rows|] == rows;
    assert rows'[|rows|..] == [r] + rows'[|rows| + 1..] by { assert rows'[..|rows| + 1][|rows|] == r; }
    AddressesConcat([r], rows'[|rows| + 1..]);
  }

  lemma AppendsTwice(rows: seq<Row>, rows1: seq<Row>, rows2: seq<Row>, f1: seq<Ip>, f2: seq<Ip>, count: nat, n1: nat, n2: nat)
    requires AppendsFirst(rows, rows1, f1, count, n1) && AppendsFirst(rows1, rows2, f2, n1, n2)
    ensures AppendsFirst(rows, rows2, f1 + f2, count, n2)
  {
    var room := MAX_NEW_DEVICES_PER_SWEEP - count;
    UptoConcat(f1, f2, room);
    assert rows2[|rows|..] == rows1[|rows|..] + rows2[|rows1|..] by { assert rows2[..|rows1|] == rows1; }
    assert rows2[..|rows|] == rows2[..|rows1|][..|rows|];
    AddressesConcat(rows1[|rows|..], rows2[|rows1|..]);
    assert |Addresses(rows1[|rows|..])| == n1 - count;
  }

  lemma {:induction false} SweepHopsInOrder(e: Env, t: Table, parent: Row, hops: seq<Ip>, count: nat)
    requires GoodParent(parent, t.rows) && Walked(e, parent).Some? && count <= MAX_NEW_DEVICES_PER_SWEEP
    requires forall h :: h in hops ==> h in Walked(e, parent).value.1
    ensures var (t', n) := SweepHops(e, t, parent.ip, Walked(e, parent).value.0, hops, count);
            && AppendsFirst(t.rows, t'.rows, FirstNew(e.isPrivate, Ips(t.rows), hops), count, n)
            && Ips(t.rows) <= Ips(t'.rows)
    decreases |hops|
  {
    hide AppendsFirst, Walked, VisitHop, Ips;
    if hops == [] || count == MAX_NEW_DEVICES_PER_SWEEP {
      AppendsNothing(t.rows, FirstNew(e.isPrivate, Ips(t.rows), hops), count);
    } else {
      var creds := Walked(e, parent).value.0;
      VisitHopExact(e, t, parent, hops[0]);
      var (t1, inserted) := VisitHop(e, t, parent.ip, creds, hops[0]);
      if inserted {
        var r :| t1.rows == t.rows + [r] && r.ip == hops[0] && BornOf(e, r, parent);
        OneMoreTracked(t.rows, r);
        SweepHopsInOrder(e, t1, parent, hops[1..], count + 1);
        var (t2, n) := SweepHops(e, t1, parent.ip, creds, hops[1..], count + 1);
        AppendsOneMore(t.rows, r, t2.rows, FirstNew(e.isPrivate, Ips(t1.rows), hops[1..]), count, n);
      } else {
        SweepHopsInOrder(e, t, parent, hops[1..], count);
      }
    }
  }

  lemma OneMoreTracked(rows: seq<Row>, r: Row)
    ensures Ips(rows + [r]) == Ips(rows) + {r.ip}
  {
    assert (rows + [r])[..|rows|] == rows;
  }

  lemma {:induction false} SweepParentsInOrder(e: Env, t: Table, parents: seq<Row>, count: nat)
    requires GoodParents(parents, t.rows) && count <= MAX_NEW_DEVICES_PER_SWEEP
    ensures var (t', n) := SweepParents(e, t, parents, count);
            AppendsFirst(t.rows, t'.rows, FirstNew(e.isPrivate, Ips(t.rows), AllHops(e, parents)), count, n)
    decreases |parents|
  {
    hide AppendsFirst, Walked, SweepHops, Ips, FirstNew;
    if parents == [] || count == MAX_NEW_DEVICES_PER_SWEEP {
      NothingNew(e.isPrivate, Ips(t.rows));
      AppendsNothing(t.rows, FirstNew(e.isPrivate, Ips(t.rows), AllHops(e, parents)), count);
    } else {
      GoodParentsStayGood(parents, t.rows, []);
      match Walked(e, parents[0]) {
        case None =>
          assert AllHops(e, parents) == AllHops(e, parents[1..]);
          SweepParentsInOrder(e, t, parents[1..], count);
        case Some((creds, hops)) =>
          SweepHopsInOrder(e, t, parents[0], hops, count);
          var (t1, n1) := SweepHops(e, t, parents[0].ip, creds, hops, count);
          AfterHops(e, t, t1, parents, hops, count, n1);
      }
    }
  }

  lemma NothingNew(isPrivate: Ip -> bool, tracked: set<Ip>)
    ensures FirstNew(isPrivate, tracked, []) == []
  {
  }

  /** The remaining parents, once the first has been visited: either there is no room left, or all its new next
      hops are tracked by now. */
  lemma {:induction false} AfterHops(e: Env, t: Table, t1: Table, parents: seq<Row>, hops: seq<Ip>, count: nat, n1: nat)
    requires parents != [] && GoodParents(parents, t.rows) && AllHops(e, parents) == hops + AllHops(e, parents[1..])
    requires AppendsFirst(t.rows, t1.rows, FirstNew(e.isPrivate, Ips(t.rows), hops), count, n1)
    ensures var (t2, n2) := SweepParents(e, t1, parents[1..], n1);
            AppendsFirst(t.rows, t2.rows, FirstNew(e.isPrivate, Ips(t.rows), AllHops(e, parents)), count, n2)
    decreases |parents|, 0
  {
    hide Walked, SweepHops, Ips, FirstNew, AppendsFirst;
    var tracked, rest := Ips(t.rows), parents[1..];
    var f1 := FirstNew(e.isPrivate, tracked, hops);
    var f2 := FirstNew(e.isPrivate, tracked + Members(f1), AllHops(e, rest));
    FirstNewConcat(e.isPrivate, tracked, hops, AllHops(e, rest));
    AppendedTracked(t, t1, f1, count, n1);
    GoodParentsStayGood(parents, t.rows, t1.rows[|t.rows|..]);
    var (t2, n2) := SweepParents(e, t1, rest, n1);
    if n1 == MAX_NEW_DEVICES_PER_SWEEP {
      AppendsNothing(t1.rows, f2, n1);
    } else {
      SweepParentsInOrder(e, t1, rest, n1);
    }
    AppendsTwice(t.rows, t1.rows, t2.rows, f1, f2, count, n1, n2);
  }

  lemma AppendedTracked(t: Table, t1: Table, news: seq<Ip>, count: nat, n1: nat)
    requires AppendsFirst(t.rows, t1.rows, news, count, n1)
    ensures n1 <= MAX_NEW_DEVICES_PER_SWEEP && t1.rows == t.rows + t1.rows[|t.rows|..]
    ensures n1 < MAX_NEW_DEVICES_PER_SWEEP ==> Ips(t1.rows) == Ips(t.rows) + Members(news)
  {
    hide Ips;
    var added := t1.rows[|t.rows|..];
    assert t1.rows == t.rows + added;
    IpsConcat(t.rows, added);
    MembersOfRows(added);
    assert |Addresses(added)| == |added|;
  }

  /** Which ones: with more candidates than room, the first ten in the order of the parents' ids and of their walks,
      counting an address where it comes first, skipping what is tracked or not private. */
  lemma {:induction false} SweepInsertsTheFirst(e: Env, t: Table)
    requires Valid(t) && AllScannable(ActiveRows(t))
    ensures var t' := Sweep(e, t).0;
            && |t.rows| <= |t'.rows| && t'.rows[..|t.rows|] == t.rows
            && Addresses(t'.rows[|t.rows|..]) == Upto(FirstNew(e.isPrivate, Ips(t.rows), AllHops(e, ActiveRows(t))), 10)
  {
    hide Ips, FirstNew, SweepParents, AllHops, Upto;
    ActiveParentsGood(t);
    SweepParentsInOrder(e, t, ActiveRows(t), 0);
  }

  lemma ActiveParentsGood(t: Table)
    requires Valid(t)
    ensures GoodParents(ActiveRows(t), t.rows)
  {
    WithStatusExact(t.rows, "active");
    forall p | p in ActiveRows(t) ensures GoodParent(p, t.rows) {
      var i :| 0 <= i < |t.rows| && t.rows[i] == p;
      assert Checks(p);
      IpsMember(t.rows, p.ip);
    }
  }

  // ---------------------------------------------------------------- what the rows say

  /** What a sweep writes about an address it found with these credentials: without duplication a bare pending row;
      with it, the outcome of a probe with the parent's credentials, and their version and community, encrypted, or
      neither if the community cannot be encrypted. Nothing of a v3 user is ever copied. */
  ghost predicate SweptAs(r: Row, e: Env, creds: Credentials) {
    && Scannable(r) && r.At(IsPublicIp) == Flag(false) && r.Str(DiscoveredVia) == "routing_table_sweep"
    && r.Str(Hostname) == "" && r.Str(GroupName) == "" && r.Str(V3User) == "" && r.Str(V3AuthKey) == "" && r.Str(V3PrivKey) == ""
    && r.Str(V3AuthProtocol) == "" && r.Str(V3PrivProtocol) == ""
    && (if !e.duplicate then r.Str(Status) == "pending" && r.Str(SnmpVersion) == "" && r.Str(Community) == ""
        else
          && r.Str(Status) == (if exists client :: Describes(creds, client) && e.net.answers(r.ip, client) then "active" else "failed")
          && (match Encrypt(e.key, creds.community, e.nonce(r.ip))
              case Some(sealed) => r.Str(SnmpVersion) == creds.version && r.Str(Community) == sealed
              case None => r.Str(SnmpVersion) == "" && r.Str(Community) == ""))
  }

  lemma DiscoveredExact(e: Env, r: Row, creds: Credentials)
    requires r.cells == CellsOf(Discovered(e, r.ip, creds))
    ensures SweptAs(r, e, creds)
  {
    hide Encrypt, Describes, Scannable;
    InsertedRowReads(r, Discovered(e, r.ip, creds));
    VerifyIff(e.net, r.ip, creds);
  }

  /** Every appended row was found through an active device, and says what the sweep found with the credentials
      that device stores. */
  lemma SweptRowExact(e: Env, t: Table, k: nat)
    requires Valid(t) && |t.rows| <= k < |Sweep(e, t).0.rows|
    ensures var r := Sweep(e, t).0.rows[k];
            exists p, creds :: p in t.rows && p.At(Status) == Text("active") && r.ip in PrivateHops(e, p)
                               && DecryptCredentials(p, e.key) == Some(creds) && SweptAs(r, e, creds)
  {
    hide Sweep, DecryptCredentials, SweptAs, AllScannable, RouteNextHops;
    SweepUnread(e, t);
    var added := SweepAdded(e, t);
    var r := Sweep(e, t).0.rows[k];
    assert r == added[k - |t.rows|];
    var p :| p in ActiveRows(t) && BornOf(e, r, p);
    WithStatusExact(t.rows, "active");
    var creds := Walked(e, p).value.0;
    DiscoveredExact(e, r, creds);
    assert DecryptCredentials(p, e.key) == Some(creds);
  }

  lemma SweepUnread(e: Env, t: Table)
    ensures !AllScannable(ActiveRows(t)) ==> Sweep(e, t) == (t, 0)
  {
  }

  /** An address is inserted exactly when it is not its parent's own, private and untracked, whether or not the
      parent is still in the table. */
  lemma VisitHopIff(e: Env, t: Table, parentIp: Ip, creds: Credentials, hop: Ip)
    requires creds.version in {"v1", "v2c", "v3", ""}
    ensures VisitHop(e, t, parentIp, creds, hop).1 <==> hop != parentIp && e.isPrivate(hop) && hop !in Ips(t.rows)
    ensures !VisitHop(e, t, parentIp, creds, hop).1 ==> VisitHop(e, t, parentIp, creds, hop).0 == t
  {
    hide Ips, Insert;
    LookupIffTracked(t, hop);
    IpsMember(t.rows, hop);
    InsertSucceedsIff(t, Discovered(e, hop, creds), e.clock(hop));
  }
}
