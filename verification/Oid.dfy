/** Dotted-decimal object identifiers as text, and what string tests on them mean for the
    sub-identifier sequences behind them. */
module Oid {
  import opened Basics

  type SubIds = seq<nat>

  function Digit(d: nat): char
    requires d < 10
  {
    (48 + d) as char
  }

  /** Decimal notation without leading zeros. */
  function Dec(n: nat): string {
    if n < 10 then [Digit(n)] else Dec(n / 10) + [Digit(n % 10)]
  }

  /** The %d of Go's fmt. */
  function Itoa(n: int): string {
    if n < 0 then "-" + Dec(-n) else Dec(n)
  }

  /** The text of an object identifier as the SNMP library prints it: every sub-identifier after a dot. */
  function PrintOid(o: SubIds): string {
    if o == [] then "" else "." + Dec(o[0]) + PrintOid(o[1..])
  }

  function HasPrefix(s: string, prefix: string): bool {
    prefix <= s
  }

  function TrimDot(s: string): string {
    if s != "" && s[|s| - 1] == '.' then s[..|s| - 1] else s
  }

  // ---------------------------------------------------------------- numbers

  /** Reads a decimal numeral back. */
  function DecValue(s: string): int {
    if s == "" then 0 else DecValue(s[..|s| - 1]) * 10 + (s[|s| - 1] as int - 48)
  }

  lemma {:induction false} DecRoundTrip(n: nat)
    ensures DecValue(Dec(n)) == n
    ensures Dec(n) != "" && forall c :: c in Dec(n) ==> '0' <= c <= '9'
  {
    if n < 10 {
      assert Dec(n)[..0] == "";
    } else {
      DecRoundTrip(n / 10);
      assert Dec(n)[..|Dec(n)| - 1] == Dec(n / 10);
    }
  }

  lemma DecInjective(m: nat, n: nat)
    ensures Dec(m) == Dec(n) ==> m == n
    ensures '.' !in Dec(n)
  {
    DecRoundTrip(m);
    DecRoundTrip(n);
  }

  /** Reads a signed numeral back. */
  function IntValue(s: string): int {
    if s != "" && s[0] == '-' then -DecValue(s[1..]) else DecValue(s)
  }

  lemma ItoaRoundTrip(n: int)
    ensures IntValue(Itoa(n)) == n && Itoa(n) != "" && (n < 0 <==> Itoa(n)[0] == '-')
  {
    DecRoundTrip(if n < 0 then -n else n);
    if n < 0 {
      assert Itoa(n)[1..] == Dec(-n);
    } else {
      assert Itoa(n)[0] in Dec(n);
    }
  }

  lemma ItoaInjective(m: int, n: int)
    ensures Itoa(m) == Itoa(n) <==> m == n
    ensures '.' !in Itoa(n) && Itoa(n) != ""
  {
    DecRoundTrip(if m < 0 then -m else m);
    DecRoundTrip(if n < 0 then -n else n);
    if Itoa(m) == Itoa(n) {
      assert m < 0 ==> Itoa(m)[0] == '-';
      assert n < 0 ==> Itoa(n)[0] == '-';
      assert m >= 0 ==> Itoa(m)[0] in Itoa(m);
      assert n >= 0 ==> Itoa(n)[0] in Itoa(n);
      if m < 0 {
        assert Itoa(m)[1..] == Dec(-m) && Itoa(n)[1..] == Dec(-n);
      }
    }
  }

  // ---------------------------------------------------------------- dots

  /** An empty text or one that begins with a dot. */
  predicate Dotted(s: string) {
    s == "" || s[0] == '.'
  }

  lemma PrefixAfter(head: string, s: string, t: string)
    ensures HasPrefix(head + s, head + t) <==> HasPrefix(s, t)
  {
    if HasPrefix(head + s, head + t) {
      assert t == (head + t)[|head|..] && s == (head + s)[|head|..];
      assert (head + s)[..|head + t|] == head + t;
      assert (head + s)[|head|..|head| + |t|] == s[..|t|];
      assert (head + t)[|head|..|head| + |t|] == t;
    }
    if HasPrefix(s, t) {
      assert s == t + s[|t|..];
      assert head + s == (head + t) + s[|t|..];
    }
  }

  /** A numeral is read up to the next dot, so a dot-terminated prefix compares whole numerals. */
  lemma PrefixByNumeral(a: string, s: string, b: string, t: string)
    requires '.' !in a && '.' !in b
    requires Dotted(s) && Dotted(t) && t != ""
    ensures HasPrefix(a + s, b + t) <==> a == b && HasPrefix(s, t)
  {
    PrefixAfter(a, s, t);
    if HasPrefix(a + s, b + t) {
      assert forall k :: 0 <= k < |b + t| ==> (a + s)[k] == (b + t)[k];
      assert (b + t)[|b|] == '.';
      assert s != "" ==> (a + s)[|a|] == '.';
      assert forall k :: 0 <= k < |a| ==> (a + s)[k] in a;
      assert forall k :: 0 <= k < |b| ==> (b + t)[k] in b;
      assert |a| == |b|;
      assert a == (a + s)[..|a|] == (b + t)[..|b|] == b;
    }
  }

  lemma PrintIsDotted(o: SubIds)
    ensures Dotted(PrintOid(o)) && Dotted(PrintOid(o) + ".")
  {
  }

  /** o lies strictly below column: it has column as a proper prefix. */
  predicate Below(o: SubIds, column: SubIds) {
    column < o
  }

  /** The string test with a trailing dot is the prefix test on sub-identifiers: .2. never matches .20. */
  lemma {:induction false} HasPrefixIffBelow(o: SubIds, column: SubIds)
    ensures HasPrefix(PrintOid(o), PrintOid(column) + ".") <==> Below(o, column)
  {
    if column == [] {
      assert "" + "." == ".";
      assert o != [] ==> PrintOid(o)[0] == '.';
    } else if o != [] {
      var a, s, b, t := Dec(o[0]), PrintOid(o[1..]), Dec(column[0]), PrintOid(column[1..]) + ".";
      assert PrintOid(o) == "." + (a + s);
      assert PrintOid(column) + "." == "." + (b + t);
      PrefixAfter(".", a + s, b + t);
      DecInjective(o[0], column[0]);
      DecInjective(column[0], o[0]);
      PrintIsDotted(o[1..]);
      PrintIsDotted(column[1..]);
      PrefixByNumeral(a, s, b, t);
      HasPrefixIffBelow(o[1..], column[1..]);
      BelowByHead(o, column);
    }
  }

  lemma BelowByHead(o: SubIds, column: SubIds)
    requires o != [] && column != []
    ensures Below(o, column) <==> o[0] == column[0] && Below(o[1..], column[1..])
  {
    if o[0] == column[0] && Below(o[1..], column[1..]) {
      assert o == [o[0]] + o[1..] && column == [column[0]] + column[1..];
    }
    if Below(o, column) {
      assert o[..|column|] == column;
      assert o[1..][..|column| - 1] == o[..|column|][1..];
    }
  }

  lemma {:induction false} PrintConcat(o: SubIds, p: SubIds)
    ensures PrintOid(o + p) == PrintOid(o) + PrintOid(p)
  {
    if o == [] {
      assert o + p == p;
    } else {
      PrintConcat(o[1..], p);
      assert (o + p)[1..] == o[1..] + p;
      ConcatAssociative("." + Dec(o[0]), PrintOid(o[1..]), PrintOid(p));
    }
  }

  lemma PrintAppend(o: SubIds, n: nat)
    ensures PrintOid(o + [n]) == PrintOid(o) + "." + Dec(n)
  {
    PrintConcat(o, [n]);
    assert [n][1..] == [];
  }

  /** The last dot of a text splits it in only one way. */
  lemma LastDotSplits(a: string, x: string, b: string, y: string)
    requires '.' !in x && '.' !in y
    ensures a + "." + x == b + "." + y <==> a == b && x == y
  {
    var s, t := a + "." + x, b + "." + y;
    if s == t {
      assert s[|a|] == '.' && t[|b|] == '.';
      assert forall k :: |a| < k < |s| ==> s[k] in x;
      assert forall k :: |b| < k < |t| ==> t[k] in y;
      assert a == s[..|a|] && b == t[..|b|];
      assert x == s[|a| + 1..] && y == t[|b| + 1..];
    }
  }

  lemma {:induction false} PrintInjective(o: SubIds, p: SubIds)
    ensures PrintOid(o) == PrintOid(p) ==> o == p
  {
    if PrintOid(o) == PrintOid(p) {
      if o != [] && p != [] {
        var m, n := o[|o| - 1], p[|p| - 1];
        assert o == o[..|o| - 1] + [m] && p == p[..|p| - 1] + [n];
        PrintAppend(o[..|o| - 1], m);
        PrintAppend(p[..|p| - 1], n);
        DecInjective(m, n);
        DecInjective(n, m);
        LastDotSplits(PrintOid(o[..|o| - 1]), Dec(m), PrintOid(p[..|p| - 1]), Dec(n));
        PrintInjective(o[..|o| - 1], p[..|p| - 1]);
      }
    }
  }

  /** No printed identifier ends with a dot, and after its leading dot comes a digit. */
  lemma PrintEnds(o: SubIds)
    requires o != []
    ensures var s := PrintOid(o); |s| >= 2 && s[0] == '.' && s[1] != '.' && s[|s| - 1] != '.'
  {
    var s := PrintOid(o);
    DecRoundTrip(o[0]);
    assert s[1] == Dec(o[0])[0];
    assert s[1] in Dec(o[0]);
    DecRoundTrip(o[|o| - 1]);
    PrintAppend(o[..|o| - 1], o[|o| - 1]);
    assert o == o[..|o| - 1] + [o[|o| - 1]];
    assert s[|s| - 1] in Dec(o[|o| - 1]);
  }
}
