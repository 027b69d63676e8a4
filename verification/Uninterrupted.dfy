/** The two views of the table's writers agree. Run without faults and without another actor's statement in
    between, an actor of the interleaving machine does exactly what the sequential program does: it can
    finish with the program's outcome for any nonces and times, and whenever it finishes, it has reached
    the program's outcome for the nonces and times of its own statements. */
module Uninterrupted {
  import opened Basics
  import opened Snmp
  import opened DeviceTable
  import opened HealthCheck
  import opened ConfigApi
  import opened DiscoverySweep
  import opened Interleaving
  import Gateway

  /** Fault-free steps of one actor, all meeting the same network. */
  ghost predicate Alone(events: seq<Event>, a: nat, net: Network) {
    forall e :: e in events ==> e.actor == a && !e.fault && e.action.Advance? && e.action.net == net
  }

  /** The actor can run from s to idleness on its own and leave the table t behind. */
  ghost predicate Finishes(w: World, s: State, a: nat, net: Network, t: Table) {
    exists events :: Alone(events, a, net) && Run(w, s, events).table == t && ActorOf(Run(w, s, events), a) == Idle
  }

  lemma {:induction false} RunCons(w: World, s: State, e: Event, events: seq<Event>)
    ensures Run(w, s, [e] + events) == Run(w, Step(w, s, e), events)
  {
    hide Step;
    if events == [] {
      assert [e] + events == [e] && [e][..0] == [];
    } else {
      RunCons(w, s, e, events[..|events| - 1]);
      assert ([e] + events)[..|events|] == [e] + events[..|events| - 1];
    }
  }

  lemma FinishesNow(w: World, s: State, a: nat, net: Network)
    requires ActorOf(s, a) == Idle
    ensures Finishes(w, s, a, net, s.table)
  {
    assert Run(w, s, []) == s;
    assert Alone([], a, net);
  }

  lemma FinishesAfter(w: World, s: State, a: nat, net: Network, t: Table, nonce: string, now: int)
    requires Finishes(w, Step(w, s, Event(a, Advance(net, nonce), false, now)), a, net, t)
    ensures Finishes(w, s, a, net, t)
  {
    hide Step;
    var e := Event(a, Advance(net, nonce), false, now);
    var s1 := Step(w, s, e);
    var events :| Alone(events, a, net) && Run(w, s1, events).table == t && ActorOf(Run(w, s1, events), a) == Idle;
    RunCons(w, s, e, events);
    assert Alone([e] + events, a, net);
  }

  // ---------------------------------------------------------------- the sweep

  ghost predicate Matches(w: World, e: Env) {
    e.key == w.key && e.isPrivate == w.isPrivate
  }

  /** What a sweep at this point still has to do, by the sequential program. */
  function Remaining(e: Env, t: Table, at: SweepPoint): Table {
    var (t1, count) := SweepHops(e, t, at.parentIp, at.creds, at.hops, at.count);
    SweepParents(e, t1, at.parents, count).0
  }

  /** One next hop, as one or two statements of the machine. */
  lemma HopAlone(w: World, e: Env, s: State, a: nat, at: SweepPoint, t: Table)
    requires Matches(w, e) && ActorOf(s, a) == Sweeping(at) && at.duplicate == e.duplicate
    requires at.hops != [] && at.count < MAX_NEW_DEVICES_PER_SWEEP
    requires var (t1, inserted) := VisitHop(e, s.table, at.parentIp, at.creds, at.hops[0]);
             forall s2: State ::
               && s2.table == t1
               && ActorOf(s2, a) == Sweeping(at.(hops := at.hops[1..], count := if inserted then at.count + 1 else at.count))
               ==> Finishes(w, s2, a, e.net, t)
    ensures Finishes(w, s, a, e.net, t)
  {
    hide Finishes, Insert, GetByIp, Discovered;
    var hop, rest := at.hops[0], at.(hops := at.hops[1..]);
    var s1 := Step(w, s, Event(a, Advance(e.net, ""), false, 0));
    if ShouldConsider(e, s.table, hop, at.parentIp) {
      assert ActorOf(s1, a) == SweepLooked(hop, rest) && s1.table == s.table;
      SameDiscovered(e, Env(e.net, w.key, w.isPrivate, rest.duplicate, _ => e.nonce(hop), _ => e.clock(hop)), hop, rest.creds);
      FinishesAfter(w, s1, a, e.net, t, e.nonce(hop), e.clock(hop));
    }
    FinishesAfter(w, s, a, e.net, t, "", 0);
  }

  /** The inserted row depends on no nonce but the one for its own address. */
  lemma SameDiscovered(e: Env, e': Env, ip: Ip, creds: Credentials)
    requires e'.net == e.net && e'.key == e.key && e'.duplicate == e.duplicate && e'.nonce(ip) == e.nonce(ip)
    ensures Discovered(e, ip, creds) == Discovered(e', ip, creds)
  {
  }

  lemma {:induction false} SweepFinishes(w: World, e: Env, s: State, a: nat, at: SweepPoint)
    requires Matches(w, e) && ActorOf(s, a) == Sweeping(at) && at.duplicate == e.duplicate
    ensures Finishes(w, s, a, e.net, Remaining(e, s.table, at))
    decreases |at.parents|, |at.hops|
  {
    hide Finishes, VisitHop, GetByIp, DecryptCredentials, RouteNextHops;
    var s1 := Step(w, s, Event(a, Advance(e.net, ""), false, 0));
    if at.count >= MAX_NEW_DEVICES_PER_SWEEP || (at.hops == [] && at.parents == []) {
      FinishesNow(w, s1, a, e.net);
      FinishesAfter(w, s, a, e.net, s.table, "", 0);
    } else if at.hops != [] {
      var (t1, inserted) := VisitHop(e, s.table, at.parentIp, at.creds, at.hops[0]);
      var next := at.(hops := at.hops[1..], count := if inserted then at.count + 1 else at.count);
      forall s2: State | s2.table == t1 && ActorOf(s2, a) == Sweeping(next)
        ensures Finishes(w, s2, a, e.net, Remaining(e, s.table, at))
      {
        SweepFinishes(w, e, s2, a, next);
      }
      HopAlone(w, e, s, a, at, Remaining(e, s.table, at));
    } else {
      ParentAlone(w, e, s, a, at, "", 0);
      SweepFinishes(w, e, s1, a, ActorOf(s1, a).at);
      FinishesAfter(w, s, a, e.net, Remaining(e, s.table, at), "", 0);
    }
  }

  /** One parent: its walk, or its being skipped. */
  lemma ParentAlone(w: World, e: Env, s: State, a: nat, at: SweepPoint, nonce: string, now: int)
    requires Matches(w, e) && ActorOf(s, a) == Sweeping(at)
    requires at.hops == [] && at.parents != [] && at.count < MAX_NEW_DEVICES_PER_SWEEP
    ensures var s1 := Step(w, s, Event(a, Advance(e.net, nonce), false, now));
            && s1.table == s.table && ActorOf(s1, a).Sweeping?
            && ActorOf(s1, a).at.parents == at.parents[1..] && ActorOf(s1, a).at.duplicate == at.duplicate
            && Remaining(e, s.table, ActorOf(s1, a).at) == Remaining(e, s.table, at)
  {
    hide VisitHop, DecryptCredentials, RouteNextHops;
  }

  /** A sweep that nobody disturbs is the sequential sweep. */
  lemma SweepAlone(w: World, e: Env, s: State, a: nat)
    requires Matches(w, e) && ActorOf(s, a) == Idle
    ensures Finishes(w, Step(w, s, Event(a, StartSweep(e.duplicate), false, 0)), a, e.net, Sweep(e, s.table).0)
  {
    hide Finishes, SweepParents, WithStatus;
    var s1 := Step(w, s, Event(a, StartSweep(e.duplicate), false, 0));
    match ListByStatus(s.table, "active")
    case None => FinishesNow(w, s1, a, e.net);
    case Some(parents) => SweepFinishes(w, e, s1, a, SweepStart(parents, e.duplicate));
  }

  // ---------------------------------------------------------------- the health check

  /** The table after the rows from k on have been checked. */
  function CheckedFrom(t: Table, net: Network, key: Key, clock: int -> int, k: nat): Table
    requires k <= |t.rows|
  {
    t.(rows := seq(|t.rows|, i requires 0 <= i < |t.rows| => if i < k then t.rows[i] else CheckedRow(t.rows[i], net, key, clock)))
  }

  lemma {:induction false} CheckFinishes(w: World, net: Network, clock: int -> int, s: State, a: nat, k: nat)
    requires Valid(s.table) && k <= |s.table.rows| && ActorOf(s, a) == Checking(s.table.rows[k..])
    ensures Finishes(w, s, a, net, CheckedFrom(s.table, net, w.key, clock, k))
    decreases |s.table.rows| - k
  {
    hide Finishes, Valid, Update, CheckedRow, Probeable, DecryptCredentials;
    var t := s.table;
    var s1 := Step(w, s, Event(a, Advance(net, ""), false, 0));
    var target := CheckedFrom(t, net, w.key, clock, k);
    if k == |t.rows| {
      assert target.rows == t.rows;
      FinishesNow(w, s1, a, net);
    } else {
      var d := t.rows[k];
      assert t.rows[k..][0] == d && t.rows[k..][1..] == t.rows[k + 1..];
      CheckedRowBySteps(d, net, w.key, clock);
      if CheckedRow(d, net, w.key, clock) == d && ActorOf(s1, a).Checking? {
        CheckFinishes(w, net, clock, s1, a, k + 1);
        assert CheckedFrom(t, net, w.key, clock, k + 1).rows == target.rows;
      } else {
        WriteFinishes(w, net, clock, s1, a, k, s);
      }
    }
    FinishesAfter(w, s, a, net, target, "", 0);
  }

  lemma CheckedRowBySteps(d: Row, net: Network, key: Key, clock: int -> int)
    ensures !Probeable(d, key) ==> CheckedRow(d, net, key, clock) == d
    ensures Probeable(d, key) ==>
              var status := ProbedStatus(net, d.ip, DecryptCredentials(d, key).value);
              CheckedRow(d, net, key, clock) == if status == d.Str(Status) then d else WithNewStatus(d, status, clock(d.id))
  {
  }

  /** The pending status write of the k-th device. */
  lemma {:induction false} WriteFinishes(w: World, net: Network, clock: int -> int, s1: State, a: nat, k: nat, s: State)
    requires Valid(s.table) && s1.table == s.table && k < |s.table.rows|
    requires Probeable(s.table.rows[k], w.key)
    requires var d := s.table.rows[k];
             var status := ProbedStatus(net, d.ip, DecryptCredentials(d, w.key).value);
             && CheckedRow(d, net, w.key, clock) == WithNewStatus(d, status, clock(d.id))
             && ActorOf(s1, a) == StatusPending(d.id, d.ip, StatusUpdate(status), s.table.rows[k + 1..])
    ensures Finishes(w, s1, a, net, CheckedFrom(s.table, net, w.key, clock, k))
    decreases |s.table.rows| - k, 0
  {
    hide Finishes, Update, CheckedRow, DecryptCredentials;
    var t, d := s.table, s.table.rows[k];
    var status := ProbedStatus(net, d.ip, DecryptCredentials(d, w.key).value);
    StatusUpdateHitsItsRow(t, k, status, clock(d.id));
    var s2 := Step(w, s1, Event(a, Advance(net, ""), false, clock(d.id)));
    assert s2.table == t.(rows := t.rows[k := CheckedRow(d, net, w.key, clock)]);
    assert s2.table.rows[k + 1..] == t.rows[k + 1..];
    StatusWriteKeepsValid(t, k, status, clock(d.id));
    CheckFinishes(w, net, clock, s2, a, k + 1);
    assert CheckedFrom(s2.table, net, w.key, clock, k + 1).rows == CheckedFrom(t, net, w.key, clock, k).rows;
    FinishesAfter(w, s1, a, net, CheckedFrom(t, net, w.key, clock, k), "", clock(d.id));
  }

  lemma StatusWriteKeepsValid(t: Table, k: nat, status: string, now: int)
    requires Valid(t) && k < |t.rows| && status in {"pending", "active", "failed"}
    ensures Valid(t.(rows := t.rows[k := WithNewStatus(t.rows[k], status, now)]))
  {
    StatusUpdateHitsItsRow(t, k, status, now);
    UpdateFrame(t, t.rows[k].id, StatusUpdate(status), now);
  }

  /** A health check that nobody disturbs is the sequential pass. */
  lemma CheckAlone(w: World, net: Network, clock: int -> int, s: State, a: nat)
    requires Valid(s.table) && ActorOf(s, a) == Idle
    ensures Finishes(w, Step(w, s, Event(a, StartCheck, false, 0)), a, net, HealthPass(s.table, net, w.key, clock))
  {
    hide Finishes, CheckedRow, Valid;
    var s1 := Step(w, s, Event(a, StartCheck, false, 0));
    if AllScannable(s.table.rows) {
      assert s1.table.rows[0..] == s.table.rows;
      CheckFinishes(w, net, clock, s1, a, 0);
      assert CheckedFrom(s.table, net, w.key, clock, 0).rows == HealthPass(s.table, net, w.key, clock).rows;
    } else {
      FinishesNow(w, s1, a, net);
    }
  }

  // ---------------------------------------------------------------- the gateway and the API

  lemma GatewayAlone(w: World, net: Network, s: State, a: nat, ip: Ip, nonce: string, now: int, later: int)
    requires ActorOf(s, a) == Idle
    ensures Finishes(w, Step(w, s, Event(a, StartGateway(ip), false, 0)), a, net,
                     Gateway.Discover(s.table, net, w.key, w.isPrivate, Some(ip), nonce, now, later))
  {
    hide Finishes, Insert, Update, GetByIp, Gateway.ProbeUpdates;
    var s1 := Step(w, s, Event(a, StartGateway(ip), false, 0));
    if ActorOf(s1, a) == Idle {
      FinishesNow(w, s1, a, net);
    } else {
      var s2 := Step(w, s1, Event(a, Advance(net, nonce), false, now));
      if ActorOf(s2, a) == Idle {
        FinishesNow(w, s2, a, net);
        FinishesAfter(w, s1, a, net, s2.table, nonce, now);
      } else {
        var s3 := Step(w, s2, Event(a, Advance(net, nonce), false, 0));
        if ActorOf(s3, a) == Idle {
          FinishesNow(w, s3, a, net);
        } else {
          PendingFinishes(w, net, s3, a, later);
        }
        var final := if ActorOf(s3, a) == Idle then s3.table else Update(s3.table, ActorOf(s3, a).id, ActorOf(s3, a).updates, later).0;
        FinishesAfter(w, s2, a, net, final, nonce, 0);
        FinishesAfter(w, s1, a, net, final, nonce, now);
      }
    }
  }

  /** A pending write with nothing after it. */
  lemma PendingFinishes(w: World, net: Network, s: State, a: nat, later: int)
    requires ActorOf(s, a).StatusPending? && ActorOf(s, a).rest == []
    ensures Finishes(w, s, a, net, Update(s.table, ActorOf(s, a).id, ActorOf(s, a).updates, later).0)
  {
    hide Finishes, Update;
    var s1 := Step(w, s, Event(a, Advance(net, ""), false, later));
    var s2 := Step(w, s1, Event(a, Advance(net, ""), false, 0));
    FinishesNow(w, s2, a, net);
    FinishesAfter(w, s1, a, net, s2.table, "", 0);
    FinishesAfter(w, s, a, net, s2.table, "", later);
  }

  /** A PATCH that nobody disturbs is the sequential handler. */
  lemma PatchAlone(w: World, net: Network, s: State, a: nat, id: int, req: PatchRequest, nonce: Column -> string, now: int, later: int)
    requires ActorOf(s, a) == Idle
    ensures Finishes(w, Step(w, s, Event(a, StartPatch(id, req, nonce), false, now)), a, net,
                     Patch(s.table, net, w.key, id, req, nonce, now, later).0)
  {
    hide Finishes, Update, SecretsSeal, PatchUpdates, DecryptCredentials, SnmpFieldsChanged, ProbeStatus, Scannable;
    var s1 := Step(w, s, Event(a, StartPatch(id, req, nonce), false, now));
    if ActorOf(s1, a) == Idle {
      FinishesNow(w, s1, a, net);
    } else {
      var s2 := Step(w, s1, Event(a, Advance(net, ""), false, 0));
      if ActorOf(s2, a) == Idle {
        FinishesNow(w, s2, a, net);
        FinishesAfter(w, s1, a, net, s2.table, "", 0);
      } else {
        PendingFinishes(w, net, s2, a, later);
        var final := Update(s2.table, ActorOf(s2, a).id, ActorOf(s2, a).updates, later).0;
        FinishesAfter(w, s1, a, net, final, "", 0);
      }
    }
  }

  // ---------------------------------------------------------------- every undisturbed run

  /** A run that takes an actor to idleness has a first step. */
  lemma RunFirst(w: World, s: State, a: nat, net: Network, events: seq<Event>)
    requires Alone(events, a, net) && ActorOf(s, a) != Idle && ActorOf(Run(w, s, events), a) == Idle
    ensures events != []
    ensures Run(w, s, events) == Run(w, Step(w, s, events[0]), events[1..]) && Alone(events[1..], a, net)
    ensures events[0] == Event(a, Advance(net, NonceAt(events, 0)), false, TimeAt(events, 0))
  {
    hide Step;
    assert events == [events[0]] + events[1..];
    RunCons(w, s, events[0], events[1..]);
    assert events[0] in events;
  }

  lemma {:induction false} IdleStays(w: World, s: State, a: nat, net: Network, events: seq<Event>)
    requires ActorOf(s, a) == Idle && Alone(events, a, net)
    ensures Run(w, s, events) == s
  {
    if events != [] {
      var front, last := events[..|events| - 1], events[|events| - 1];
      assert last in events && forall e :: e in front ==> e in events;
      IdleStays(w, s, a, net, front);
    }
  }

  /** The nonce and the time of the k-th step of a run. */
  function NonceAt(events: seq<Event>, k: nat): string {
    if k < |events| && events[k].action.Advance? then events[k].action.nonce else ""
  }

  function TimeAt(events: seq<Event>, k: nat): int {
    if k < |events| then events[k].now else 0
  }

  /** The nonce and the time with which a run inserted each address. */
  function OwnInsertions(w: World, s: State, a: nat, events: seq<Event>): map<Ip, (string, int)>
    decreases |events|
  {
    if events == [] then map[]
    else
      var later := OwnInsertions(w, Step(w, s, events[0]), a, events[1..]);
      if ActorOf(s, a).SweepLooked? then later[ActorOf(s, a).ip := (NonceAt(events, 0), TimeAt(events, 0))] else later
  }

  function OwnEnv(w: World, net: Network, duplicate: bool, own: map<Ip, (string, int)>): Env {
    Env(net, w.key, w.isPrivate, duplicate, ip => if ip in own then own[ip].0 else "", ip => if ip in own then own[ip].1 else 0)
  }

  /** The environments agree on everything a sweep of this table can still ask for. */
  ghost predicate AgreeOnUntracked(e: Env, e': Env, t: Table) {
    && e.net == e'.net && e.key == e'.key && e.isPrivate == e'.isPrivate && e.duplicate == e'.duplicate
    && (forall ip :: GetByIp(t, ip) == NotFound ==> e.nonce(ip) == e'.nonce(ip) && e.clock(ip) == e'.clock(ip))
  }

  lemma InsertTracks(t: Table, d: NewDevice, now: int)
    requires Insert(t, d, now).Some?
    ensures var t1 := Insert(t, d, now).value;
            && GetByIp(t1, d.ip) != NotFound
            && (forall ip :: GetByIp(t1, ip) == NotFound ==> GetByIp(t, ip) == NotFound)
  {
    var t1 := Insert(t, d, now).value;
    assert t1.rows[..|t.rows|] == t.rows;
  }

  lemma VisitAgrees(e: Env, e': Env, t: Table, parentIp: Ip, creds: Credentials, hop: Ip)
    requires AgreeOnUntracked(e, e', t)
    ensures VisitHop(e, t, parentIp, creds, hop) == VisitHop(e', t, parentIp, creds, hop)
    ensures AgreeOnUntracked(e, e', VisitHop(e, t, parentIp, creds, hop).0)
  {
    hide Insert, GetByIp, Discovered;
    if ShouldConsider(e, t, hop, parentIp) {
      SameDiscovered(e, e', hop, creds);
      if Insert(t, Discovered(e, hop, creds), e.clock(hop)).Some? {
        InsertTracks(t, Discovered(e, hop, creds), e.clock(hop));
      }
    }
  }

  lemma {:induction false} HopsAgree(e: Env, e': Env, t: Table, parentIp: Ip, creds: Credentials, hops: seq<Ip>, count: nat)
    requires AgreeOnUntracked(e, e', t)
    ensures SweepHops(e, t, parentIp, creds, hops, count) == SweepHops(e', t, parentIp, creds, hops, count)
    ensures AgreeOnUntracked(e, e', SweepHops(e, t, parentIp, creds, hops, count).0)
    decreases |hops|
  {
    hide AgreeOnUntracked, VisitHop;
    if hops != [] && count < MAX_NEW_DEVICES_PER_SWEEP {
      VisitAgrees(e, e', t, parentIp, creds, hops[0]);
      var (t1, inserted) := VisitHop(e, t, parentIp, creds, hops[0]);
      HopsAgree(e, e', t1, parentIp, creds, hops[1..], if inserted then count + 1 else count);
    }
  }

  lemma {:induction false} ParentsAgree(e: Env, e': Env, t: Table, parents: seq<Row>, count: nat)
    requires AgreeOnUntracked(e, e', t)
    ensures SweepParents(e, t, parents, count) == SweepParents(e', t, parents, count)
    decreases |parents|
  {
    hide AgreeOnUntracked, SweepHops, DecryptCredentials, RouteNextHops;
    if parents != [] && count < MAX_NEW_DEVICES_PER_SWEEP {
      SameWalk(e, e', t, parents[0]);
      match Walked(e, parents[0]) {
        case None => ParentsAgree(e, e', t, parents[1..], count);
        case Some((creds, hops)) =>
          HopsAgree(e, e', t, parents[0].ip, creds, hops, count);
          var (t1, count1) := SweepHops(e, t, parents[0].ip, creds, hops, count);
          ParentsAgree(e, e', t1, parents[1..], count1);
      }
    }
  }

  lemma SameWalk(e: Env, e': Env, t: Table, parent: Row)
    requires AgreeOnUntracked(e, e', t)
    ensures Walked(e, parent) == Walked(e', parent)
  {
  }

  lemma RemainingAgrees(e: Env, e': Env, t: Table, at: SweepPoint)
    requires AgreeOnUntracked(e, e', t)
    ensures Remaining(e, t, at) == Remaining(e', t, at)
  {
    hide AgreeOnUntracked, SweepHops, SweepParents;
    HopsAgree(e, e', t, at.parentIp, at.creds, at.hops, at.count);
    var (t1, count) := SweepHops(e, t, at.parentIp, at.creds, at.hops, at.count);
    ParentsAgree(e, e', t1, at.parents, count);
  }

  const VERSIONS := {"v1", "v2c", "v3", ""}

  /** What rows of a valid table give a sweep: versions that the CHECK admits again. */
  ghost predicate VersionsOk(at: SweepPoint) {
    at.creds.version in VERSIONS && forall p :: p in at.parents ==> p.Str(SnmpVersion) in VERSIONS
  }

  /** Undisturbed, an insertion that the lookup let through succeeds. */
  lemma LookedInserts(e: Env, t: Table, ip: Ip, creds: Credentials, now: int)
    requires GetByIp(t, ip) == NotFound && creds.version in VERSIONS
    ensures Discovered(e, ip, creds).ip == ip
    ensures Insert(t, Discovered(e, ip, creds), now).Some?
  {
    InsertSucceedsIff(t, Discovered(e, ip, creds), now);
  }

  /** The statement that inserts the looked-up next hop is the program's insertion with its nonce and time. */
  lemma InsertStatement(w: World, e: Env, s: State, a: nat, at: SweepPoint, ip: Ip, parentIp: Ip)
    requires Matches(w, e) && at.duplicate == e.duplicate && at.creds.version in VERSIONS
    requires ActorOf(s, a) == SweepLooked(ip, at) && ShouldConsider(e, s.table, ip, parentIp)
    ensures var s1 := Step(w, s, Event(a, Advance(e.net, e.nonce(ip)), false, e.clock(ip)));
            && (s1.table, true) == VisitHop(e, s.table, parentIp, at.creds, ip)
            && ActorOf(s1, a) == Sweeping(at.(count := at.count + 1))
            && GetByIp(s1.table, ip) != NotFound
  {
    hide Insert, GetByIp, Discovered;
    var e' := Env(e.net, w.key, w.isPrivate, at.duplicate, _ => e.nonce(ip), _ => e.clock(ip));
    SameDiscovered(e, e', ip, at.creds);
    LookedInserts(e, s.table, ip, at.creds, e.clock(ip));
    InsertTracks(s.table, Discovered(e, ip, at.creds), e.clock(ip));
  }

  /** From any point of a sweep on: when it has finished, it has done what remained, by the program, with
      the nonces and times of its own insertions. */
  lemma {:induction false} EverySweepRun(w: World, s: State, a: nat, net: Network, at: SweepPoint, events: seq<Event>)
    requires Alone(events, a, net) && ActorOf(s, a) == Sweeping(at) && VersionsOk(at)
    requires ActorOf(Run(w, s, events), a) == Idle
    ensures Run(w, s, events).table
         == Remaining(OwnEnv(w, net, at.duplicate, OwnInsertions(w, s, a, events)), s.table, at)
    decreases |events|, 1
  {
    hide Step, Remaining, OwnEnv, VersionsOk;
    RunFirst(w, s, a, net, events);
    var s1, rest := Step(w, s, events[0]), events[1..];
    var own := OwnInsertions(w, s, a, events);
    var e := OwnEnv(w, net, at.duplicate, own);
    assert Matches(w, e) && e.net == net && e.duplicate == at.duplicate by { OwnEnvMatches(w, net, at.duplicate, own); }
    SweepingStep(w, e, s, a, at, NonceAt(events, 0), TimeAt(events, 0));
    if ActorOf(s1, a) == Idle {
      IdleStays(w, s1, a, net, rest);
    } else if ActorOf(s1, a).Sweeping? {
      EverySweepRun(w, s1, a, net, ActorOf(s1, a).at, rest);
    } else {
      EveryInsertion(w, s1, a, net, ActorOf(s1, a).at, ActorOf(s1, a).ip, at.parentIp, rest);
    }
  }

  lemma OwnEnvMatches(w: World, net: Network, duplicate: bool, own: map<Ip, (string, int)>)
    ensures var e := OwnEnv(w, net, duplicate, own); Matches(w, e) && e.net == net && e.duplicate == duplicate
  {
  }

  /** One step of a sweep between two next hops: it ends, or moves on without touching the table, or has
      looked up a next hop that the program would insert. */
  lemma SweepingStep(w: World, e: Env, s: State, a: nat, at: SweepPoint, nonce: string, now: int)
    requires Matches(w, e) && ActorOf(s, a) == Sweeping(at) && VersionsOk(at) && at.duplicate == e.duplicate
    ensures var s1 := Step(w, s, Event(a, Advance(e.net, nonce), false, now));
            && s1.table == s.table
            && match ActorOf(s1, a)
               case Idle => Remaining(e, s.table, at) == s.table
               case Sweeping(at1) =>
                 VersionsOk(at1) && at1.duplicate == at.duplicate && Remaining(e, s.table, at1) == Remaining(e, s.table, at)
               case SweepLooked(ip, at1) =>
                 && VersionsOk(at1) && at1.duplicate == at.duplicate && at1.parentIp == at.parentIp
                 && ShouldConsider(e, s.table, ip, at.parentIp)
                 && (VisitHop(e, s.table, at.parentIp, at1.creds, ip).1 ==>
                       Remaining(e, s.table, at) ==
                       Remaining(e, VisitHop(e, s.table, at.parentIp, at1.creds, ip).0, at1.(count := at1.count + 1)))
               case _ => false
  {
    hide VisitHop, GetByIp, RouteNextHops;
    if at.count < MAX_NEW_DEVICES_PER_SWEEP && at.hops != [] {
      HopStep(w, e, s, a, at, nonce, now);
    } else if at.count < MAX_NEW_DEVICES_PER_SWEEP && at.parents != [] {
      ParentAlone(w, e, s, a, at, nonce, now);
      ParentVersions(w, e, s, a, at, nonce, now);
    }
  }

  lemma ParentVersions(w: World, e: Env, s: State, a: nat, at: SweepPoint, nonce: string, now: int)
    requires ActorOf(s, a) == Sweeping(at) && VersionsOk(at)
    requires at.hops == [] && at.parents != [] && at.count < MAX_NEW_DEVICES_PER_SWEEP
    ensures var s1 := Step(w, s, Event(a, Advance(e.net, nonce), false, now));
            ActorOf(s1, a).Sweeping? && VersionsOk(ActorOf(s1, a).at)
  {
    hide RouteNextHops, Decrypt;
    assert at.parents[0] in at.parents;
  }

  lemma HopStep(w: World, e: Env, s: State, a: nat, at: SweepPoint, nonce: string, now: int)
    requires Matches(w, e) && ActorOf(s, a) == Sweeping(at) && VersionsOk(at)
    requires at.hops != [] && at.count < MAX_NEW_DEVICES_PER_SWEEP
    ensures var s1 := Step(w, s, Event(a, Advance(e.net, nonce), false, now));
            var hop, at1 := at.hops[0], at.(hops := at.hops[1..]);
            && s1.table == s.table && VersionsOk(at1)
            && (if ShouldConsider(e, s.table, hop, at.parentIp) then
                  && ActorOf(s1, a) == SweepLooked(hop, at1)
                  && (VisitHop(e, s.table, at.parentIp, at.creds, hop).1 ==>
                        Remaining(e, s.table, at) ==
                        Remaining(e, VisitHop(e, s.table, at.parentIp, at.creds, hop).0, at1.(count := at1.count + 1)))
                else ActorOf(s1, a) == Sweeping(at1) && Remaining(e, s.table, at1) == Remaining(e, s.table, at))
  {
    hide GetByIp, Insert, Discovered, SweepParents;
  }

  /** The same when the next statement is the insertion of a looked-up next hop. */
  lemma {:induction false} EveryInsertion(w: World, s: State, a: nat, net: Network, at: SweepPoint, ip: Ip, parentIp: Ip, events: seq<Event>)
    requires Alone(events, a, net) && ActorOf(s, a) == SweepLooked(ip, at) && VersionsOk(at)
    requires ActorOf(Run(w, s, events), a) == Idle
    requires var e := OwnEnv(w, net, at.duplicate, OwnInsertions(w, s, a, events)); ShouldConsider(e, s.table, ip, parentIp)
    ensures var e := OwnEnv(w, net, at.duplicate, OwnInsertions(w, s, a, events));
            && VisitHop(e, s.table, parentIp, at.creds, ip).1
            && Run(w, s, events).table == Remaining(e, VisitHop(e, s.table, parentIp, at.creds, ip).0, at.(count := at.count + 1))
    decreases |events|, 0
  {
    hide Step, Remaining, VisitHop, GetByIp;
    RunFirst(w, s, a, net, events);
    var s1, rest := Step(w, s, events[0]), events[1..];
    var later := OwnInsertions(w, s1, a, rest);
    var e, e1 := OwnEnv(w, net, at.duplicate, later[ip := (NonceAt(events, 0), TimeAt(events, 0))]), OwnEnv(w, net, at.duplicate, later);
    InsertStatement(w, e, s, a, at, ip, parentIp);
    EverySweepRun(w, s1, a, net, at.(count := at.count + 1), rest);
    RemainingAgrees(e, e1, s1.table, at.(count := at.count + 1));
  }

  /** Every undisturbed sweep that has finished is the sequential sweep, with its own nonces and times. */
  lemma {:induction false} EverySweepAlone(w: World, s: State, a: nat, net: Network, duplicate: bool, now: int, events: seq<Event>)
    requires Valid(s.table) && ActorOf(s, a) == Idle && Alone(events, a, net)
    requires ActorOf(Run(w, Step(w, s, Event(a, StartSweep(duplicate), false, now)), events), a) == Idle
    ensures var s1 := Step(w, s, Event(a, StartSweep(duplicate), false, now));
            Run(w, s1, events).table == Sweep(OwnEnv(w, net, duplicate, OwnInsertions(w, s1, a, events)), s.table).0
  {
    hide SweepParents, OwnInsertions, Run;
    var s1 := Step(w, s, Event(a, StartSweep(duplicate), false, now));
    match ListByStatus(s.table, "active")
    case None => IdleStays(w, s1, a, net, events);
    case Some(parents) =>
      ParentsHaveVersions(s.table);
      EverySweepRun(w, s1, a, net, SweepStart(parents, duplicate), events);
  }

  lemma ParentsHaveVersions(t: Table)
    requires Valid(t)
    ensures forall p :: p in WithStatus(t.rows, "active") ==> p.Str(SnmpVersion) in VERSIONS
  {
    WithStatusExact(t.rows, "active");
    forall p | p in WithStatus(t.rows, "active") ensures p.Str(SnmpVersion) in VERSIONS {
      var i :| 0 <= i < |t.rows| && t.rows[i] == p;
      assert Checks(t.rows[i]);
    }
  }

  /** The time with which a run wrote the status of each id. */
  function OwnWrites(w: World, s: State, a: nat, events: seq<Event>): map<int, int>
    decreases |events|
  {
    if events == [] then map[]
    else
      var later := OwnWrites(w, Step(w, s, events[0]), a, events[1..]);
      if ActorOf(s, a).StatusPending? then later[ActorOf(s, a).id := TimeAt(events, 0)] else later
  }

  function OwnClock(own: map<int, int>): int -> int {
    id => if id in own then own[id] else 0
  }

  /** From any device of the snapshot on. */
  lemma {:induction false} EveryCheckRun(w: World, net: Network, s: State, a: nat, k: nat, events: seq<Event>)
    requires Valid(s.table) && k <= |s.table.rows| && ActorOf(s, a) == Checking(s.table.rows[k..])
    requires Alone(events, a, net) && ActorOf(Run(w, s, events), a) == Idle
    ensures Run(w, s, events).table == CheckedFrom(s.table, net, w.key, OwnClock(OwnWrites(w, s, a, events)), k)
    decreases |events|, 1
  {
    hide Valid, Update, CheckedRow, Probeable, DecryptCredentials, CheckedFrom, OwnClock;
    RunFirst(w, s, a, net, events);
    var t, s1, rest := s.table, Step(w, s, events[0]), events[1..];
    var clock := OwnClock(OwnWrites(w, s, a, events));
    if k == |t.rows| {
      IdleStays(w, s1, a, net, rest);
      CheckedNothing(t, net, w.key, clock);
    } else {
      var d := t.rows[k];
      assert t.rows[k..][0] == d && t.rows[k..][1..] == t.rows[k + 1..];
      CheckedRowBySteps(d, net, w.key, clock);
      if ActorOf(s1, a).Checking? {
        EveryCheckRun(w, net, s1, a, k + 1, rest);
        CheckedOneMore(t, net, w.key, clock, k);
      } else {
        EveryWrite(w, net, s1, a, k, rest);
      }
    }
  }

  lemma CheckedNothing(t: Table, net: Network, key: Key, clock: int -> int)
    ensures CheckedFrom(t, net, key, clock, |t.rows|) == t
  {
    assert CheckedFrom(t, net, key, clock, |t.rows|).rows == t.rows;
  }

  lemma CheckedOneMore(t: Table, net: Network, key: Key, clock: int -> int, k: nat)
    requires k < |t.rows| && CheckedRow(t.rows[k], net, key, clock) == t.rows[k]
    ensures CheckedFrom(t, net, key, clock, k + 1) == CheckedFrom(t, net, key, clock, k)
  {
    hide CheckedRow;
    assert CheckedFrom(t, net, key, clock, k + 1).rows == CheckedFrom(t, net, key, clock, k).rows;
  }

  /** The statement of a pending write. */
  lemma PendingStep(w: World, s: State, a: nat, net: Network, nonce: string, now: int)
    requires ActorOf(s, a).StatusPending?
    ensures var s1 := Step(w, s, Event(a, Advance(net, nonce), false, now));
            && s1.table == Update(s.table, ActorOf(s, a).id, ActorOf(s, a).updates, now).0
            && ActorOf(s1, a) == Checking(ActorOf(s, a).rest)
  {
    hide Update;
  }

  lemma CheckedAll(w: World, s: State, a: nat, net: Network, nonce: string, now: int)
    requires ActorOf(s, a) == Checking([])
    ensures var s1 := Step(w, s, Event(a, Advance(net, nonce), false, now));
            s1.table == s.table && ActorOf(s1, a) == Idle
  {
  }

  lemma {:induction false} EveryWrite(w: World, net: Network, s: State, a: nat, k: nat, events: seq<Event>)
    requires Valid(s.table) && k < |s.table.rows| && Probeable(s.table.rows[k], w.key)
    requires var d := s.table.rows[k];
             var status := ProbedStatus(net, d.ip, DecryptCredentials(d, w.key).value);
             status != d.Str(Status) && ActorOf(s, a) == StatusPending(d.id, d.ip, StatusUpdate(status), s.table.rows[k + 1..])
    requires Alone(events, a, net) && ActorOf(Run(w, s, events), a) == Idle
    ensures Run(w, s, events).table == CheckedFrom(s.table, net, w.key, OwnClock(OwnWrites(w, s, a, events)), k)
    decreases |events|, 0
  {
    hide Valid, Update, CheckedRow, DecryptCredentials, CheckedFrom, Step, Run, Alone, ActorOf, OwnClock, Verify;
    RunFirst(w, s, a, net, events);
    PendingStep(w, s, a, net, NonceAt(events, 0), TimeAt(events, 0));
    var t, s1, rest := s.table, Step(w, s, events[0]), events[1..];
    var d := t.rows[k];
    var status := ProbedStatus(net, d.ip, DecryptCredentials(d, w.key).value);
    StatusUpdateHitsItsRow(t, k, status, TimeAt(events, 0));
    StatusWriteKeepsValid(t, k, status, TimeAt(events, 0));
    assert s1.table.rows[k + 1..] == t.rows[k + 1..];
    EveryCheckRun(w, net, s1, a, k + 1, rest);
    var later := OwnWrites(w, s1, a, rest);
    var own := later[d.id := TimeAt(events, 0)];
    assert OwnWrites(w, s, a, events) == own;
    CheckedRowBySteps(d, net, w.key, OwnClock(own));
    assert OwnClock(own)(d.id) == TimeAt(events, 0) by { OwnTime(later, d.id, TimeAt(events, 0)); }
    WriteThenCheck(t, net, w.key, later, k, TimeAt(events, 0));
  }

  lemma OwnTime(later: map<int, int>, id: int, now: int)
    ensures OwnClock(later[id := now])(id) == now
  {
  }

  /** Writing row k first and checking the rest, with clocks that differ at that row's id only. */
  lemma WriteThenCheck(t: Table, net: Network, key: Key, later: map<int, int>, k: nat, now: int)
    requires Valid(t) && k < |t.rows|
    ensures var clock := OwnClock(later[t.rows[k].id := now]);
            var t1 := t.(rows := t.rows[k := CheckedRow(t.rows[k], net, key, clock)]);
            CheckedFrom(t1, net, key, OwnClock(later), k + 1) == CheckedFrom(t, net, key, clock, k)
  {
    hide CheckedRow;
    var clock := OwnClock(later[t.rows[k].id := now]);
    var t1 := t.(rows := t.rows[k := CheckedRow(t.rows[k], net, key, clock)]);
    forall i | k < i < |t.rows|
      ensures CheckedRow(t.rows[i], net, key, OwnClock(later)) == CheckedRow(t.rows[i], net, key, clock)
    {
      assert t.rows[i].id != t.rows[k].id;
      SameTimeSameRow(t.rows[i], net, key, OwnClock(later), clock);
    }
    assert CheckedFrom(t1, net, key, OwnClock(later), k + 1).rows == CheckedFrom(t, net, key, clock, k).rows;
  }

  lemma SameTimeSameRow(r: Row, net: Network, key: Key, clock: int -> int, clock': int -> int)
    requires clock(r.id) == clock'(r.id)
    ensures CheckedRow(r, net, key, clock) == CheckedRow(r, net, key, clock')
  {
  }

  /** Every undisturbed health check that has finished is the sequential pass, with its own times. */
  lemma {:induction false} EveryCheckAlone(w: World, s: State, a: nat, net: Network, now: int, events: seq<Event>)
    requires Valid(s.table) && ActorOf(s, a) == Idle && Alone(events, a, net)
    requires ActorOf(Run(w, Step(w, s, Event(a, StartCheck, false, now)), events), a) == Idle
    ensures var s1 := Step(w, s, Event(a, StartCheck, false, now));
            Run(w, s1, events).table == HealthPass(s.table, net, w.key, OwnClock(OwnWrites(w, s1, a, events)))
  {
    hide CheckedRow, Valid, OwnWrites, OwnClock, Run;
    var s1 := Step(w, s, Event(a, StartCheck, false, now));
    if AllScannable(s.table.rows) {
      assert s1.table.rows[0..] == s.table.rows;
      EveryCheckRun(w, net, s1, a, 0, events);
      var clock := OwnClock(OwnWrites(w, s1, a, events));
      assert CheckedFrom(s.table, net, w.key, clock, 0).rows == HealthPass(s.table, net, w.key, clock).rows;
    } else {
      IdleStays(w, s1, a, net, events);
    }
  }

  /** A pending write with nothing after it, in every run that has finished. */
  lemma EveryPending(w: World, net: Network, s: State, a: nat, events: seq<Event>)
    requires ActorOf(s, a).StatusPending? && ActorOf(s, a).rest == []
    requires Alone(events, a, net) && ActorOf(Run(w, s, events), a) == Idle
    ensures Run(w, s, events).table == Update(s.table, ActorOf(s, a).id, ActorOf(s, a).updates, TimeAt(events, 0)).0
  {
    hide Update, Step, Run, Alone, ActorOf;
    RunFirst(w, s, a, net, events);
    PendingStep(w, s, a, net, NonceAt(events, 0), TimeAt(events, 0));
    var s1, rest := Step(w, s, events[0]), events[1..];
    RunFirst(w, s1, a, net, rest);
    CheckedAll(w, s1, a, net, NonceAt(rest, 0), TimeAt(rest, 0));
    IdleStays(w, Step(w, s1, rest[0]), a, net, rest[1..]);
  }

  /** Every undisturbed gateway discovery that has finished: the first step inserts, the second probes, the
      third records. */
  lemma {:induction false} EveryGatewayAlone(w: World, s: State, a: nat, net: Network, ip: Ip, now: int, events: seq<Event>)
    requires ActorOf(s, a) == Idle && Alone(events, a, net)
    requires ActorOf(Run(w, Step(w, s, Event(a, StartGateway(ip), false, now)), events), a) == Idle
    ensures Run(w, Step(w, s, Event(a, StartGateway(ip), false, now)), events).table
         == Gateway.Discover(s.table, net, w.key, w.isPrivate, Some(ip), NonceAt(events, 1), TimeAt(events, 0), TimeAt(events, 2))
  {
    hide Insert, Update, GetByIp, Gateway.ProbeUpdates, Run;
    var s1 := Step(w, s, Event(a, StartGateway(ip), false, now));
    if ActorOf(s1, a) == Idle {
      IdleStays(w, s1, a, net, events);
    } else {
      EveryGatewayInsert(w, s1, a, net, ip, events);
    }
  }

  lemma EveryGatewayInsert(w: World, s: State, a: nat, net: Network, ip: Ip, events: seq<Event>)
    requires ActorOf(s, a) == GatewayLooked(ip) && GetByIp(s.table, ip) == NotFound
    requires Alone(events, a, net) && ActorOf(Run(w, s, events), a) == Idle
    ensures Run(w, s, events).table
         == Gateway.Discover(s.table, net, w.key, w.isPrivate, Some(ip), NonceAt(events, 1), TimeAt(events, 0), TimeAt(events, 2))
  {
    hide Insert, Update, GetByIp, Run, Gateway.ProbeUpdates, Alone;
    RunFirst(w, s, a, net, events);
    var s1, rest := Step(w, s, events[0]), events[1..];
    if ActorOf(s1, a) == Idle {
      IdleStays(w, s1, a, net, rest);
    } else {
      EveryProbe(w, s1, a, net, s1.table.lastId, ip, rest);
    }
  }

  /** The probe of a freshly inserted gateway, and the write it leads to. */
  lemma EveryProbe(w: World, s: State, a: nat, net: Network, id: int, ip: Ip, events: seq<Event>)
    requires ActorOf(s, a) == GatewayInserted(id, ip)
    requires Alone(events, a, net) && ActorOf(Run(w, s, events), a) == Idle
    ensures Run(w, s, events).table ==
              match Gateway.ProbeUpdates(net, w.key, ip, NonceAt(events, 0)) {
                case None => s.table
                case Some(updates) => Update(s.table, id, updates, TimeAt(events, 1)).0
              }
  {
    hide Update, Run, Gateway.ProbeUpdates, Alone;
    RunFirst(w, s, a, net, events);
    var s1, rest := Step(w, s, events[0]), events[1..];
    if ActorOf(s1, a) == Idle {
      IdleStays(w, s1, a, net, rest);
    } else {
      EveryPending(w, net, s1, a, rest);
    }
  }

  /** Every undisturbed PATCH that has finished: the first update has the time of its start, the status
      write that of the second step. */
  lemma {:induction false} EveryPatchAlone(
      w: World, s: State, a: nat, net: Network, id: int, req: PatchRequest, nonce: Column -> string, now: int, events: seq<Event>)
    requires ActorOf(s, a) == Idle && Alone(events, a, net)
    requires ActorOf(Run(w, Step(w, s, Event(a, StartPatch(id, req, nonce), false, now)), events), a) == Idle
    ensures Run(w, Step(w, s, Event(a, StartPatch(id, req, nonce), false, now)), events).table
         == Patch(s.table, net, w.key, id, req, nonce, now, TimeAt(events, 1)).0
  {
    hide Update, SecretsSeal, PatchUpdates, Get, Reprobe, SnmpFieldsChanged, Run, Alone;
    var s1 := Step(w, s, Event(a, StartPatch(id, req, nonce), false, now));
    if ActorOf(s1, a) == Idle {
      IdleStays(w, s1, a, net, events);
    } else {
      EveryReread(w, s1, a, net, id, req, events);
    }
  }

  /** After the first update: the re-read, the probe if one is due, and the write it leads to. */
  lemma EveryReread(w: World, s: State, a: nat, net: Network, id: int, req: PatchRequest, events: seq<Event>)
    requires ActorOf(s, a) == PatchWritten(id, req)
    requires Alone(events, a, net) && ActorOf(Run(w, s, events), a) == Idle
    ensures Run(w, s, events).table ==
              match Get(s.table, id) {
                case Found(d) =>
                  if !SnmpFieldsChanged(req) || Status in req then s.table else Reprobe(s.table, net, w.key, d, TimeAt(events, 1)).0
                case _ => s.table
              }
  {
    hide Update, DecryptCredentials, SnmpFieldsChanged, ProbeStatus, Scannable, Run, Alone;
    RunFirst(w, s, a, net, events);
    var s1, rest := Step(w, s, events[0]), events[1..];
    if ActorOf(s1, a) == Idle {
      IdleStays(w, s1, a, net, rest);
    } else {
      EveryPending(w, net, s1, a, rest);
    }
  }

  // ---------------------------------------------------------------- POST, DELETE, and faults

  /** The start of a POST writes nothing yet: it either ends at once, or stands ready with the row to insert. */
  lemma PostStarts(w: World, s: State, a: nat, probe: Network, req: DeviceRequest, nonce: Column -> string, now: int)
    requires ActorOf(s, a) == Idle
    ensures var s1 := Step(w, s, Event(a, StartPost(probe, req, nonce), false, now));
            && s1.table == s.table
            && (req.ip == "" || PostedDevice(probe, w.key, w.isPrivate, req, nonce).None? ==> ActorOf(s1, a) == Idle)
            && (req.ip != "" && PostedDevice(probe, w.key, w.isPrivate, req, nonce).Some? ==>
                  ActorOf(s1, a) == PostReady(PostedDevice(probe, w.key, w.isPrivate, req, nonce).value))
  {
    hide PostedDevice;
  }

  lemma PostInserts(w: World, s: State, a: nat, net: Network, d: NewDevice, nonce: string, now: int)
    requires ActorOf(s, a) == PostReady(d)
    ensures var s1 := Step(w, s, Event(a, Advance(net, nonce), false, now));
            && s1.table == (if Insert(s.table, d, now).Some? then Insert(s.table, d, now).value else s.table)
            && ActorOf(s1, a) == Idle
  {
    hide Insert;
  }

  /** An undisturbed POST can finish, and leaves what a POST leaves. */
  lemma {:induction false} PostAlone(
      w: World, s: State, a: nat, net: Network, probe: Network, req: DeviceRequest, nonce: Column -> string, now: int)
    requires Valid(s.table) && ActorOf(s, a) == Idle
    ensures exists t' ::
              && Finishes(w, Step(w, s, Event(a, StartPost(probe, req, nonce), false, 0)), a, net, t')
              && PostLeaves(s.table, t', probe, w.key, w.isPrivate, req, nonce, now)
  {
    hide Finishes, Step, PostLeaves, Insert, PostedDevice, PostSeals;
    var s1 := Step(w, s, Event(a, StartPost(probe, req, nonce), false, 0));
    PostStarts(w, s, a, probe, req, nonce, 0);
    PostExact(s.table, probe, w.key, w.isPrivate, req, nonce, now);
    if req.ip == "" || !PostSeals(w.key, req, nonce) {
      PostRefused(s.table, probe, w.key, w.isPrivate, req, nonce, now);
      FinishesNow(w, s1, a, net);
    } else {
      var s2 := Step(w, s1, Event(a, Advance(net, ""), false, now));
      PostInserts(w, s1, a, net, PostedDevice(probe, w.key, w.isPrivate, req, nonce).value, "", now);
      FinishesNow(w, s2, a, net);
      FinishesAfter(w, s1, a, net, s2.table, "", now);
    }
  }

  /** Every undisturbed POST that has finished: exactly one more row, with the next id, that holds the request, or,
      if the address is missing or tracked, the version unknown or a secret cannot be encrypted, no change. */
  lemma {:induction false} EveryPostAlone(
      w: World, s: State, a: nat, net: Network, probe: Network, req: DeviceRequest, nonce: Column -> string, now: int, events: seq<Event>)
    requires Valid(s.table) && ActorOf(s, a) == Idle && Alone(events, a, net)
    requires ActorOf(Run(w, Step(w, s, Event(a, StartPost(probe, req, nonce), false, now)), events), a) == Idle
    ensures PostLeaves(s.table, Run(w, Step(w, s, Event(a, StartPost(probe, req, nonce), false, now)), events).table,
                       probe, w.key, w.isPrivate, req, nonce, TimeAt(events, 0))
  {
    hide Step, Run, Alone, ActorOf, PostLeaves, Insert, PostedDevice, PostSeals, TimeAt;
    var s1 := Step(w, s, Event(a, StartPost(probe, req, nonce), false, now));
    PostStarts(w, s, a, probe, req, nonce, now);
    PostExact(s.table, probe, w.key, w.isPrivate, req, nonce, TimeAt(events, 0));
    if req.ip == "" || !PostSeals(w.key, req, nonce) {
      PostRefused(s.table, probe, w.key, w.isPrivate, req, nonce, TimeAt(events, 0));
      IdleStays(w, s1, a, net, events);
    } else {
      RunFirst(w, s1, a, net, events);
      PostInserts(w, s1, a, net, PostedDevice(probe, w.key, w.isPrivate, req, nonce).value, NonceAt(events, 0), TimeAt(events, 0));
      IdleStays(w, Step(w, s1, events[0]), a, net, events[1..]);
    }
  }

  /** A DELETE leaves exactly the rows with another id, in their order, and the counter; all it needs is not to fail. */
  lemma DeleteAlone(w: World, s: State, a: nat, id: int, now: int)
    requires Valid(s.table)
    ensures var s' := Step(w, s, Event(a, DeleteById(id), false, now));
            && Valid(s'.table) && s'.table.lastId == s.table.lastId && s'.issued == s.issued && s'.actors == s.actors
            && (forall r :: r in s'.table.rows <==> r in s.table.rows && r.id != id)
  {
    hide Delete, Valid;
    DeleteExact(s.table, id);
    DeleteKeepsValid(s.table, id);
  }

  /** A statement that fails changes nothing in the table and issues no id, whatever the actor was about. */
  lemma FaultsChangeNothing(w: World, s: State, e: Event)
    requires e.fault
    ensures Step(w, s, e).table == s.table && Step(w, s, e).issued == s.issued
  {
    hide Insert, Update, Delete, SecretsSeal, PatchUpdates, Discovered, SweepNext, CheckNext, PatchNext;
    if e.action.Advance? {
      var a := ActorOf(s, e.actor);
      match a
      case Sweeping(at) => SweepNextReads(w, s, e, at, e.action.net);
      case Checking(rest) => CheckNextReads(w, s, e, rest, e.action.net);
      case PatchWritten(_, _) => PatchNextReads(w, s, e, a, e.action.net);
      case _ =>
    }
  }

  /** How an actor goes on after a failed statement: a request and gateway discovery end; the health check goes to the
      next device; the sweep to the next address, with nothing counted; what cannot start is not started. */
  lemma FaultsAreSurvived(w: World, s: State, e: Event)
    requires e.fault
    ensures var a, a' := ActorOf(s, e.actor), ActorOf(Step(w, s, e), e.actor);
            if e.action.StartPost? then true
            else if !e.action.Advance? then a' == a
            else
              match a
              case Idle => a' == Idle
              case GatewayLooked(_) => a' == Idle
              case PostReady(_) => a' == Idle
              case PatchWritten(_, _) => a' == Idle
              case StatusPending(_, _, _, rest) => a' == Checking(rest)
              case SweepLooked(_, at) => a' == Sweeping(at)
              case Sweeping(at) => at.hops != [] && at.count < 10 ==> a' == Sweeping(at.(hops := at.hops[1..]))
              case _ => true
  {
    hide Insert, Update, Delete, SecretsSeal, PatchUpdates, Discovered, CheckNext, Gateway.ProbeUpdates, GetByIp, PostedDevice;
  }
}
