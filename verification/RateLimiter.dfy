/** The per-address request limiter of the chat API (chat-api/ratelimit.go). It is a log of accepted
    requests per address, pruned to a sliding window at every call. Times are nanoseconds. */
module RateLimiter {
  /** The times after a cutoff. */
  function After(times: seq<int>, cutoff: int): seq<int> {
    if times == [] then []
    else
      var rest, last := After(times[..|times| - 1], cutoff), times[|times| - 1];
      if last > cutoff then rest + [last] else rest
  }

  type Log = map<string, seq<int>>

  function LogOf(log: Log, ip: string): seq<int> {
    if ip in log then log[ip] else []
  }

  datatype Limits = Limits(limit: int, window: int)

  /** One call of allow on the pruned logs. */
  function AllowStep(limits: Limits, log: Log, ip: string, now: int): (Log, bool) {
    var recent := After(LogOf(log, ip), now - limits.window);
    if |recent| >= limits.limit then (log[ip := recent], false) else (log[ip := recent + [now]], true)
  }

  class Limiter {
    const limits: Limits
    var requests: map<string, seq<int>>

    constructor (limit: int, window: int)
      ensures limits == Limits(limit, window) && requests == map[]
    {
      limits := Limits(limit, window);
      requests := map[];
    }

    /** `now` is read under the lock. */
    method Allow(ip: string, now: int) returns (allowed: bool)
      modifies this
      ensures (requests, allowed) == AllowStep(limits, old(requests), ip, now)
    {
      var cutoff := now - limits.window;
      var logged := LogOf(requests, ip);
      var recent: seq<int> := [];
      for i := 0 to |logged|
        invariant recent == After(logged[..i], cutoff)
        invariant requests == old(requests)
      {
        assert logged[..i + 1][..i] == logged[..i];
        if logged[i] > cutoff {
          recent := recent + [logged[i]];
        }
      }
      assert logged[..|logged|] == logged;
      if |recent| >= limits.limit {
        requests := requests[ip := recent];
        return false;
      }
      requests := requests[ip := recent + [now]];
      return true;
    }
  }

  // ---------------------------------------------------------------- runs

  datatype Call = Call(ip: string, now: int)

  function Run(limits: Limits, calls: seq<Call>): Log {
    if calls == [] then map[]
    else AllowStep(limits, Run(limits, calls[..|calls| - 1]), calls[|calls| - 1].ip, calls[|calls| - 1].now).0
  }

  /** Whether a call arriving after these calls is allowed. */
  predicate Allowed(limits: Limits, before: seq<Call>, call: Call) {
    AllowStep(limits, Run(limits, before), call.ip, call.now).1
  }

  /** The whole, never pruned history of accepted requests of an address. */
  function Accepted(limits: Limits, calls: seq<Call>, ip: string): seq<int> {
    if calls == [] then []
    else
      var front, last := calls[..|calls| - 1], calls[|calls| - 1];
      var earlier := Accepted(limits, front, ip);
      if last.ip == ip && Allowed(limits, front, last) then earlier + [last.now] else earlier
  }

  /** The clock readings of a run never go back. */
  ghost predicate Nondecreasing(calls: seq<Call>) {
    forall i, j :: 0 <= i < j < |calls| ==> calls[i].now <= calls[j].now
  }

  lemma NondecreasingFront(calls: seq<Call>, call: Call)
    requires Nondecreasing(calls + [call])
    ensures Nondecreasing(calls) && (calls != [] ==> calls[|calls| - 1].now <= call.now)
  {
    var all := calls + [call];
    assert forall i :: 0 <= i < |calls| ==> all[i] == calls[i];
    assert all[|calls|] == call;
  }

  lemma NondecreasingExtend(calls: seq<Call>, call: Call)
    requires Nondecreasing(calls) && (calls != [] ==> calls[|calls| - 1].now <= call.now)
    ensures Nondecreasing(calls + [call])
  {
  }

  lemma {:induction false} AfterAfter(times: seq<int>, a: int, b: int)
    requires a <= b
    ensures After(After(times, a), b) == After(times, b)
  {
    if times != [] {
      var rest, last := times[..|times| - 1], times[|times| - 1];
      AfterAfter(rest, a, b);
      if last > a {
        AfterAppend(After(rest, a), last, b);
      }
    }
  }

  lemma AfterAppend(times: seq<int>, t: int, cutoff: int)
    ensures After(times + [t], cutoff) == if t > cutoff then After(times, cutoff) + [t] else After(times, cutoff)
  {
    assert (times + [t])[..|times|] == times;
  }

  /** Pruning loses nothing that can still matter: for every cutoff that a call at or after `now` can use,
      the pruned log and the whole history have the same times after it. */
  lemma {:induction false} PrunedLogRefinesHistory(limits: Limits, calls: seq<Call>, ip: string, now: int, cutoff: int)
    requires Nondecreasing(calls) && (calls != [] ==> calls[|calls| - 1].now <= now)
    requires cutoff >= now - limits.window
    ensures After(LogOf(Run(limits, calls), ip), cutoff) == After(Accepted(limits, calls, ip), cutoff)
  {
    hide After, Allowed, Nondecreasing, LogOf, Run, Accepted;
    if calls == [] {
      NoHistory(limits, ip);
    } else {
      var front, last := calls[..|calls| - 1], calls[|calls| - 1];
      assert front + [last] == calls;
      NondecreasingFront(front, last);
      PrunedLogRefinesHistory(limits, front, ip, last.now, cutoff);
      LogAfterCall(limits, front, last, ip);
      if last.ip == ip {
        StepRefinesHistory(limits, LogOf(Run(limits, front), ip), Accepted(limits, front, ip), last.now, cutoff);
      }
    }
  }

  lemma NoHistory(limits: Limits, ip: string)
    ensures LogOf(Run(limits, []), ip) == Accepted(limits, [], ip) == []
  {
  }

  /** What one more call does to the pruned log and to the history of an address. */
  lemma LogAfterCall(limits: Limits, front: seq<Call>, last: Call, ip: string)
    ensures var recent := After(LogOf(Run(limits, front), last.ip), last.now - limits.window);
            var allowed := Allowed(limits, front, last);
            && LogOf(Run(limits, front + [last]), ip) ==
                 (if last.ip != ip then LogOf(Run(limits, front), ip) else if allowed then recent + [last.now] else recent)
            && Accepted(limits, front + [last], ip) ==
                 (if last.ip == ip && allowed then Accepted(limits, front, ip) + [last.now] else Accepted(limits, front, ip))
  {
    assert (front + [last])[..|front|] == front;
  }

  /** One call keeps the agreement between a pruned log and the history. */
  lemma StepRefinesHistory(limits: Limits, pruned: seq<int>, history: seq<int>, now: int, cutoff: int)
    requires cutoff >= now - limits.window && After(pruned, cutoff) == After(history, cutoff)
    ensures var recent := After(pruned, now - limits.window);
            After(recent, cutoff) == After(history, cutoff) && After(recent + [now], cutoff) == After(history + [now], cutoff)
  {
    AfterAfter(pruned, now - limits.window, cutoff);
    AfterAppend(After(pruned, now - limits.window), now, cutoff);
    AfterAppend(history, now, cutoff);
  }

  /** The decision in terms of the whole history: a request is refused exactly when `limit` accepted
      requests of its address already lie in its window. */
  lemma DecidedByWholeHistory(limits: Limits, calls: seq<Call>, call: Call)
    requires Nondecreasing(calls + [call])
    ensures Allowed(limits, calls, call) <==> |After(Accepted(limits, calls, call.ip), call.now - limits.window)| < limits.limit
  {
    hide After;
    NondecreasingFront(calls, call);
    PrunedLogRefinesHistory(limits, calls, call.ip, call.now, call.now - limits.window);
  }

  // ---------------------------------------------------------------- the window bound

  /** The times in (x - window, x]. */
  function InWindow(times: seq<int>, x: int, window: int): seq<int> {
    if times == [] then []
    else
      var rest, last := InWindow(times[..|times| - 1], x, window), times[|times| - 1];
      if x - window < last <= x then rest + [last] else rest
  }

  /** Every entry was accepted with room in its own window, and entries are in time order. */
  predicate Admissible(times: seq<int>, limits: Limits) {
    times == []
    || (var front, last := times[..|times| - 1], times[|times| - 1];
        Admissible(front, limits) && |After(front, last - limits.window)| < limits.limit && (front != [] ==> front[|front| - 1] <= last))
  }

  lemma {:induction false} AdmissibleInOrder(times: seq<int>, limits: Limits, bound: int)
    requires Admissible(times, limits) && (times != [] ==> times[|times| - 1] <= bound)
    ensures forall i :: 0 <= i < |times| ==> times[i] <= bound
  {
    if times != [] {
      var front := times[..|times| - 1];
      AdmissibleInOrder(front, limits, bound);
      assert forall i :: 0 <= i < |front| ==> times[i] == front[i];
    }
  }

  lemma {:induction false} WindowWithinAfter(times: seq<int>, x: int, window: int, cutoff: int)
    requires cutoff <= x - window
    ensures |InWindow(times, x, window)| <= |After(times, cutoff)|
  {
    if times != [] {
      WindowWithinAfter(times[..|times| - 1], x, window, cutoff);
    }
  }

  lemma {:induction false} NothingInWindow(times: seq<int>, x: int, window: int)
    requires forall i :: 0 <= i < |times| ==> times[i] <= x - window
    ensures InWindow(times, x, window) == []
  {
    if times != [] {
      NothingInWindow(times[..|times| - 1], x, window);
    }
  }

  lemma {:induction false} AdmissibleBound(times: seq<int>, limits: Limits, x: int)
    requires Admissible(times, limits)
    ensures |InWindow(times, x, limits.window)| <= if limits.limit > 0 then limits.limit else 0
  {
    if times != [] {
      var front, last := times[..|times| - 1], times[|times| - 1];
      if last <= x - limits.window {
        AdmissibleInOrder(times, limits, x - limits.window);
        NothingInWindow(times, x, limits.window);
      } else if last <= x {
        WindowWithinAfter(front, x, limits.window, last - limits.window);
      } else {
        AdmissibleBound(front, limits, x);
      }
    }
  }

  lemma {:induction false} HistoryAdmissible(limits: Limits, calls: seq<Call>, ip: string)
    requires Nondecreasing(calls)
    ensures var times := Accepted(limits, calls, ip);
            Admissible(times, limits) && (times != [] ==> times[|times| - 1] <= calls[|calls| - 1].now)
  {
    hide Nondecreasing, After, Allowed;
    if calls != [] {
      var front, last := calls[..|calls| - 1], calls[|calls| - 1];
      assert front + [last] == calls;
      NondecreasingFront(front, last);
      HistoryAdmissible(limits, front, ip);
      LogAfterCall(limits, front, last, ip);
      if last.ip == ip && Allowed(limits, front, last) {
        DecidedByWholeHistory(limits, front, last);
        AdmissibleExtend(Accepted(limits, front, ip), limits, last.now);
      }
    }
  }

  lemma AdmissibleExtend(times: seq<int>, limits: Limits, t: int)
    requires Admissible(times, limits) && (times != [] ==> times[|times| - 1] <= t)
    requires |After(times, t - limits.window)| < limits.limit
    ensures Admissible(times + [t], limits)
  {
    hide After;
    AppendThenDrop(times, t);
  }

  lemma AppendThenDrop(times: seq<int>, t: int)
    ensures (times + [t])[..|times|] == times && (times + [t])[|times|] == t
  {
  }

  /** On every run with a nondecreasing clock, for every address and every instant x, at most `limit` accepted
      requests (none, if the limit is negative) fall in (x - window, x]. The window slides: the bound is not
      tied to any grid of fixed windows. */
  lemma WindowBound(limits: Limits, calls: seq<Call>, ip: string, x: int)
    requires Nondecreasing(calls)
    ensures |InWindow(Accepted(limits, calls, ip), x, limits.window)| <= if limits.limit > 0 then limits.limit else 0
  {
    HistoryAdmissible(limits, calls, ip);
    AdmissibleBound(Accepted(limits, calls, ip), limits, x);
  }

  // ---------------------------------------------------------------- independence

  function CallsOf(calls: seq<Call>, ip: string): seq<Call> {
    if calls == [] then []
    else
      var rest, last := CallsOf(calls[..|calls| - 1], ip), calls[|calls| - 1];
      if last.ip == ip then rest + [last] else rest
  }

  lemma {:induction false} LogDependsOnOwnCalls(limits: Limits, calls: seq<Call>, ip: string)
    ensures LogOf(Run(limits, calls), ip) == LogOf(Run(limits, CallsOf(calls, ip)), ip)
  {
    hide Run, LogOf, After, Allowed, Accepted;
    if calls != [] {
      var front, last := calls[..|calls| - 1], calls[|calls| - 1];
      assert front + [last] == calls;
      LogDependsOnOwnCalls(limits, front, ip);
      LogAfterCall(limits, front, last, ip);
      if last.ip == ip {
        SameLogSameDecision(limits, front, CallsOf(front, ip), last);
        LogAfterCall(limits, CallsOf(front, ip), last, ip);
      }
    }
  }

  lemma SameLogSameDecision(limits: Limits, calls: seq<Call>, calls': seq<Call>, call: Call)
    requires LogOf(Run(limits, calls), call.ip) == LogOf(Run(limits, calls'), call.ip)
    ensures Allowed(limits, calls, call) == Allowed(limits, calls', call)
  {
  }

  /** A decision in an interleaved run is the one the address would get in the run of its own calls. */
  lemma DecisionsAreIndependent(limits: Limits, calls: seq<Call>, call: Call)
    ensures Allowed(limits, calls, call) == Allowed(limits, CallsOf(calls, call.ip), call)
  {
    hide Allowed, LogOf, Run;
    LogDependsOnOwnCalls(limits, calls, call.ip);
    SameLogSameDecision(limits, calls, CallsOf(calls, call.ip), call);
  }

  /** The calls that a mask keeps. */
  function Kept(calls: seq<Call>, keep: seq<bool>): seq<Call>
    requires |calls| == |keep|
  {
    if calls == [] then []
    else
      var n := |calls| - 1;
      Kept(calls[..n], keep[..n]) + (if keep[n] then [calls[n]] else [])
  }

  /** Only refused calls are dropped. */
  ghost predicate DropsOnlyRefused(limits: Limits, calls: seq<Call>, keep: seq<bool>)
    requires |calls| == |keep|
  {
    forall i :: 0 <= i < |calls| && !keep[i] ==> !Allowed(limits, calls[..i], calls[i])
  }

  lemma {:induction false} KeptNondecreasing(calls: seq<Call>, keep: seq<bool>)
    requires |calls| == |keep| && Nondecreasing(calls)
    ensures Nondecreasing(Kept(calls, keep))
    ensures Kept(calls, keep) != [] ==> calls != [] && Kept(calls, keep)[|Kept(calls, keep)| - 1].now <= calls[|calls| - 1].now
  {
    hide Nondecreasing;
    if calls == [] {
      assert Nondecreasing([]) by { NoCalls(); }
    } else {
      var n := |calls| - 1;
      var front, kept := calls[..n], Kept(calls[..n], keep[..n]);
      assert front + [calls[n]] == calls;
      NondecreasingFront(front, calls[n]);
      KeptNondecreasing(front, keep[..n]);
      if keep[n] {
        NondecreasingExtend(kept, calls[n]);
      } else {
        assert kept + [] == kept;
      }
    }
  }

  lemma NoCalls()
    ensures Nondecreasing([])
  {
  }

  lemma {:induction false} RefusedCallsLeaveNoTrace(limits: Limits, calls: seq<Call>, keep: seq<bool>, ip: string)
    requires |calls| == |keep| && Nondecreasing(calls) && DropsOnlyRefused(limits, calls, keep)
    ensures Accepted(limits, Kept(calls, keep), ip) == Accepted(limits, calls, ip)
  {
    hide Nondecreasing, Allowed;
    if calls != [] {
      var n := |calls| - 1;
      var front, last, kept := calls[..n], calls[n], Kept(calls[..n], keep[..n]);
      assert front + [last] == calls;
      NondecreasingFront(front, last);
      DropsInFront(limits, calls, keep);
      RefusedCallsLeaveNoTrace(limits, front, keep[..n], ip);
      LogAfterCall(limits, front, last, ip);
      if !keep[n] {
        assert kept + [] == kept;
      } else {
        LogAfterCall(limits, kept, last, ip);
        if last.ip == ip {
          SameDecisionAfterKept(limits, front, keep[..n], last);
        }
      }
    }
  }

  lemma DropsInFront(limits: Limits, calls: seq<Call>, keep: seq<bool>)
    requires calls != [] && |calls| == |keep| && DropsOnlyRefused(limits, calls, keep)
    ensures DropsOnlyRefused(limits, calls[..|calls| - 1], keep[..|calls| - 1])
    ensures !keep[|calls| - 1] ==> !Allowed(limits, calls[..|calls| - 1], calls[|calls| - 1])
  {
    var front := calls[..|calls| - 1];
    forall i | 0 <= i < |front| && !keep[i] ensures !Allowed(limits, front[..i], front[i]) {
      assert front[..i] == calls[..i];
    }
  }

  lemma SameDecisionAfterKept(limits: Limits, calls: seq<Call>, keep: seq<bool>, call: Call)
    requires |calls| == |keep| && Nondecreasing(calls + [call])
    requires Accepted(limits, Kept(calls, keep), call.ip) == Accepted(limits, calls, call.ip)
    ensures Allowed(limits, Kept(calls, keep), call) == Allowed(limits, calls, call)
  {
    hide Nondecreasing, Allowed, After, Accepted, Kept;
    NondecreasingFront(calls, call);
    KeptNondecreasing(calls, keep);
    NondecreasingExtend(Kept(calls, keep), call);
    DecidedByWholeHistory(limits, calls, call);
    DecidedByWholeHistory(limits, Kept(calls, keep), call);
  }

  /** Deleting any refused calls from a run changes no other decision. */
  lemma {:induction false} RefusedCallsChangeNothing(limits: Limits, calls: seq<Call>, keep: seq<bool>, call: Call)
    requires |calls| == |keep| && Nondecreasing(calls + [call]) && DropsOnlyRefused(limits, calls, keep)
    ensures Allowed(limits, Kept(calls, keep), call) == Allowed(limits, calls, call)
  {
    NondecreasingFront(calls, call);
    RefusedCallsLeaveNoTrace(limits, calls, keep, call.ip);
    SameDecisionAfterKept(limits, calls, keep, call);
  }
}
