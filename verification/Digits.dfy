/** Numbers written as digits of one base, the most significant first, and their order. */
module Digits {
  function Power(base: nat, n: nat): (p: nat)
    requires base > 0
    ensures p > 0
  {
    if n == 0 then 1 else base * Power(base, n - 1)
  }

  predicate Below(s: seq<nat>, base: nat) {
    forall i :: 0 <= i < |s| ==> s[i] < base
  }

  function Value(s: seq<nat>, base: nat): nat
    requires base > 0
  {
    if s == [] then 0 else s[0] * Power(base, |s| - 1) + Value(s[1..], base)
  }

  /** The sign of the first difference, as a comparison of memory gives it. */
  function Compare(s: seq<nat>, t: seq<nat>): int
    requires |s| == |t|
  {
    if s == [] then 0
    else if s[0] != t[0] then s[0] - t[0]
    else Compare(s[1..], t[1..])
  }

  /** The same as far as the shorter of the two goes. */
  function Order(s: seq<nat>, t: seq<nat>): int {
    if s == [] || t == [] then 0
    else if s[0] != t[0] then s[0] - t[0]
    else Order(s[1..], t[1..])
  }

  function Sign(x: int): int {
    if x < 0 then -1 else if x > 0 then 1 else 0
  }

  lemma {:induction false} ValueBound(s: seq<nat>, base: nat)
    requires base > 0 && Below(s, base)
    ensures Value(s, base) < Power(base, |s|)
  {
    if s != [] {
      ValueBound(s[1..], base);
      Product(s[0], base, Power(base, |s| - 1));
    }
  }

  lemma {:induction false} Product(digit: nat, limit: nat, unit: nat)
    requires digit < limit
    ensures digit * unit + unit <= limit * unit
  {
    assert limit * unit == (digit + 1) * unit + (limit - digit - 1) * unit;
  }

  /** Comparing digit by digit compares the numbers. */
  lemma {:induction false} CompareIsOrder(s: seq<nat>, t: seq<nat>, base: nat)
    requires base > 0 && |s| == |t| && Below(s, base) && Below(t, base)
    ensures Sign(Compare(s, t)) == Sign(Value(s, base) - Value(t, base))
  {
    if s != [] {
      var unit := Power(base, |s| - 1);
      if s[0] == t[0] {
        CompareIsOrder(s[1..], t[1..], base);
      } else {
        ValueBound(s[1..], base);
        ValueBound(t[1..], base);
        if s[0] < t[0] { Product(s[0], t[0], unit); } else { Product(t[0], s[0], unit); }
      }
    }
  }

  /** Dropping the last digit divides by the base. */
  lemma {:induction false} DropLast(s: seq<nat>, base: nat)
    requires base > 0 && s != []
    ensures Value(s, base) == Value(s[..|s| - 1], base) * base + s[|s| - 1]
  {
    if |s| > 1 {
      DropLast(s[1..], base);
      var n := |s| - 1;
      assert s[1..][..n - 1] == s[..n][1..];
      assert s[0] * (base * Power(base, n - 1)) == s[0] * Power(base, n - 1) * base;
      Distribute(s[0] * Power(base, n - 1), Value(s[1..n], base), base);
      assert s[..n][1..] == s[1..n];
    } else {
      assert s[1..] == [] && s[..0] == [];
    }
  }

  lemma {:induction false} Distribute(a: nat, b: nat, base: nat)
    ensures (a + b) * base == a * base + b * base
  {
  }
}
