/** The in-place exchange sort of a device ranking (chat-api/tools.go, toolRankDevices). */
module Ranking {

  datatype Ranked = Ranked(device: string, value: real)

  /** Highest first; ties in any order. */
  ghost predicate Descending(s: seq<Ranked>) {
    forall i, j :: 0 <= i < j < |s| ==> s[i].value >= s[j].value
  }

  method SortDescending(results: array<Ranked>)
    modifies results
    ensures Descending(results[..])
    ensures multiset(results[..]) == multiset(old(results[..]))
  {
    var n := results.Length;
    var i := 0;
    while i < n
      invariant 0 <= i <= n
      invariant forall k, l :: 0 <= k < i && k < l < n ==> results[k].value >= results[l].value
      invariant multiset(results[..]) == multiset(old(results[..]))
    {
      var j := i + 1;
      while j < n
        invariant i < j <= n
        invariant forall k, l :: 0 <= k < i && k < l < n ==> results[k].value >= results[l].value
        invariant forall l :: i < l < j ==> results[i].value >= results[l].value
        invariant multiset(results[..]) == multiset(old(results[..]))
      {
        if results[j].value > results[i].value {
          results[i], results[j] := results[j], results[i];
        }
        j := j + 1;
      }
      i := i + 1;
    }
  }

  /** The values of a descending ranking are determined by its entries: two descending arrangements of the
      same entries list the same values, and differ at most in the order of devices that tie. */
  lemma {:induction false} RankingUnique(a: seq<Ranked>, b: seq<Ranked>)
    requires Descending(a) && Descending(b) && multiset(a) == multiset(b)
    ensures |a| == |b| && forall i :: 0 <= i < |a| ==> a[i].value == b[i].value
  {
    assert |a| == |multiset(a)| == |multiset(b)| == |b|;
    if a != [] {
      var n := |a| - 1;
      var k := SameLowest(a, b);
      var c := WithoutAt(b, k);
      RemoveAt(b, k);
      RemoveAt(a, n);
      assert WithoutAt(a, n) == a[..n];
      Cancel(multiset(a[..n]), multiset(c), a[n]);
      DropTied(b, k);
      RankingUnique(a[..n], c);
      forall i | 0 <= i < |a| ensures a[i].value == b[i].value {
        if i < n {
          assert a[..n][i] == a[i] && c[i].value == b[i].value;
        }
      }
    }
  }

  /** Entry k gone, its place taken by the last entry. */
  function WithoutAt(b: seq<Ranked>, k: nat): seq<Ranked>
    requires k < |b|
  {
    b[k := b[|b| - 1]][..|b| - 1]
  }

  lemma RemoveAt(b: seq<Ranked>, k: nat)
    requires k < |b|
    ensures multiset(b) == multiset(WithoutAt(b, k)) + multiset{b[k]}
  {
    var n := |b| - 1;
    if k < n {
      assert b == b[..k] + [b[k]] + b[k + 1..n] + [b[n]];
      assert WithoutAt(b, k) == b[..k] + [b[n]] + b[k + 1..n];
    } else {
      assert b == b[..n] + [b[n]];
      assert WithoutAt(b, k) == b[..n];
    }
  }

  lemma Cancel(m: multiset<Ranked>, m': multiset<Ranked>, r: Ranked)
    requires m + multiset{r} == m' + multiset{r}
    ensures m == m'
  {
    assert m == (m + multiset{r}) - multiset{r};
    assert m' == (m' + multiset{r}) - multiset{r};
  }

  /** The lowest entry of one arrangement occurs in the other, and ties with its lowest. */
  lemma SameLowest(a: seq<Ranked>, b: seq<Ranked>) returns (k: nat)
    requires a != [] && |a| == |b| && Descending(a) && Descending(b) && multiset(a) == multiset(b)
    ensures k < |b| && b[k] == a[|a| - 1]
    ensures a[|a| - 1].value == b[|b| - 1].value
  {
    var n := |a| - 1;
    assert a[n] in multiset(a) && b[n] in multiset(b);
    assert a[n] in multiset(b) && b[n] in multiset(a);
    k :| 0 <= k < |b| && b[k] == a[n];
    var j :| 0 <= j < |a| && a[j] == b[n];
  }

  lemma DropTied(b: seq<Ranked>, k: nat)
    requires k < |b| && Descending(b) && b[k].value == b[|b| - 1].value
    ensures Descending(WithoutAt(b, k))
    ensures forall i :: 0 <= i < |b| - 1 ==> WithoutAt(b, k)[i].value == b[i].value
  {
  }
}
