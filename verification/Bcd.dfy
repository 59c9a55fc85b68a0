/** Packed decimals: a sign, an exponent and up to twenty digits, two to a byte. */
module Bcds {
  import opened Bytes
  import opened Digits

  datatype Bcd = Bcd(sigDig: Byte, digitInfo: Byte, bcd: seq<Byte>)

  const BYTES := 10

  function SignOf(b: Bcd): int {
    if b.digitInfo >= 128 then -1 else 1
  }

  function Length(b: Bcd): nat {
    b.digitInfo / 4 % 32
  }

  function Exponent(b: Bcd): nat {
    if Length(b) == 0 then 0 else b.sigDig
  }

  /** The comparison of two keys of a numeric tag. */
  function Cmp(a: Bcd, b: Bcd): int
    requires |a.bcd| == |b.bcd| == BYTES && Length(a) <= 20 && Length(b) <= 20
  {
    if SignOf(a) != SignOf(b) then SignOf(a)
    else if Exponent(a) != Exponent(b) then if Exponent(a) < Exponent(b) then -SignOf(a) else SignOf(a)
    else
      var longest := if Length(a) < Length(b) then Length(b) else Length(a);
      var n := (longest + 1) / 2;
      var rc := Compare(a.bcd[..n], b.bcd[..n]);
      if SignOf(a) < 0 then -rc else rc
  }

  // ----- the number denoted -----

  function Digit(b: Bcd, i: nat): nat
    requires i / 2 < |b.bcd|
  {
    if i % 2 == 0 then b.bcd[i / 2] / 16 else b.bcd[i / 2] % 16
  }

  /** Decimal digits, the first of them not zero, zeros behind the last; zero has no digits and is positive. */
  ghost predicate Normal(b: Bcd) {
    && |b.bcd| == BYTES && Length(b) <= 2 * BYTES
    && (forall i :: 0 <= i < 2 * BYTES ==> Digit(b, i) <= 9)
    && (forall i :: Length(b) <= i < 2 * BYTES ==> Digit(b, i) == 0)
    && (Length(b) > 0 ==> Digit(b, 0) > 0 && b.sigDig > 0)
    && (Length(b) == 0 ==> SignOf(b) == 1)
  }

  /** The two digits of a byte as a digit of base one hundred. */
  function Pairs(bytes: seq<Byte>): (r: seq<nat>)
    ensures |r| == |bytes| && forall i :: 0 <= i < |bytes| ==> r[i] == bytes[i] / 16 * 10 + bytes[i] % 16
  {
    if bytes == [] then [] else [bytes[0] / 16 * 10 + bytes[0] % 16] + Pairs(bytes[1..])
  }

  /** The number, scaled so that it is whole: its digits times ten to the biased exponent, and negative where the
      highest bit of the digit byte is set. */
  function Number(b: Bcd): int
    requires |b.bcd| == BYTES
  {
    var size := Value(Pairs(b.bcd), 100) * Power(10, b.sigDig);
    if b.digitInfo / 128 % 2 == 1 then -size else size
  }

  lemma {:induction false} NumberIs(b: Bcd)
    requires Normal(b)
    ensures Number(b) == SignOf(b) * (Value(Pairs(b.bcd), 100) * Power(10, Exponent(b)))
  {
    hide Power;
    DigitsBound(b);
    if Length(b) == 0 {
      assert 0 * Power(10, b.sigDig) == 0 && 0 * Power(10, 0) == 0;
    }
  }

  predicate Decimal(bytes: seq<Byte>) {
    forall i :: 0 <= i < |bytes| ==> bytes[i] / 16 <= 9 && bytes[i] % 16 <= 9
  }

  lemma {:induction false} NormalBytes(b: Bcd)
    requires Normal(b)
    ensures Decimal(b.bcd)
    ensures forall i :: (Length(b) + 1) / 2 <= i < BYTES ==> b.bcd[i] == 0
  {
    forall i | 0 <= i < BYTES
      ensures b.bcd[i] / 16 <= 9 && b.bcd[i] % 16 <= 9 && ((Length(b) + 1) / 2 <= i ==> b.bcd[i] == 0)
    {
      assert Digit(b, 2 * i) == b.bcd[i] / 16 && Digit(b, 2 * i + 1) == b.bcd[i] % 16;
    }
  }

  /** Bytes and the pairs of digits in them compare alike. */
  lemma {:induction false} ComparePairs(s: seq<Byte>, t: seq<Byte>)
    requires |s| == |t| && Decimal(s) && Decimal(t)
    ensures Sign(Compare(s, t)) == Sign(Compare(Pairs(s), Pairs(t)))
  {
    if s != [] && s[0] == t[0] {
      ComparePairs(s[1..], t[1..]);
      assert Pairs(s)[1..] == Pairs(s[1..]) && Pairs(t)[1..] == Pairs(t[1..]);
    }
  }

  lemma {:induction false} CompareSame(s: seq<Byte>)
    ensures Compare(s, s) == 0
  {
    if s != [] { CompareSame(s[1..]); }
  }

  /** Bytes that are alike from some point on need not be compared there. */
  lemma {:induction false} ComparePrefix(s: seq<Byte>, t: seq<Byte>, n: nat)
    requires |s| == |t| && n <= |s| && s[n..] == t[n..]
    ensures Compare(s[..n], t[..n]) == Compare(s, t)
  {
    if n == 0 {
      assert s == s[0..] && t == t[0..];
      CompareSame(s);
    } else if s[0] == t[0] {
      assert s[..n][1..] == s[1..][..n - 1] && t[..n][1..] == t[1..][..n - 1];
      assert s[1..][n - 1..] == s[n..] && t[1..][n - 1..] == t[n..];
      ComparePrefix(s[1..], t[1..], n - 1);
    }
  }

  lemma {:induction false} SameExponent(a: Bcd, b: Bcd)
    requires Normal(a) && Normal(b) && SignOf(a) == SignOf(b) && Exponent(a) == Exponent(b)
    ensures Sign(Cmp(a, b)) == SignOf(a) * Sign(Value(Pairs(a.bcd), 100) - Value(Pairs(b.bcd), 100))
  {
    NormalBytes(a);
    NormalBytes(b);
    var n := ((if Length(a) < Length(b) then Length(b) else Length(a)) + 1) / 2;
    assert a.bcd[n..] == b.bcd[n..];
    ComparePrefix(a.bcd, b.bcd, n);
    ComparePairs(a.bcd, b.bcd);
    CompareIsOrder(Pairs(a.bcd), Pairs(b.bcd), 100);
  }

  lemma {:induction false} PairsBelow(b: Bcd)
    requires Normal(b)
    ensures Below(Pairs(b.bcd), 100)
    ensures Length(b) > 0 ==> Pairs(b.bcd)[0] >= 10
    ensures Length(b) == 0 ==> forall i :: 0 <= i < BYTES ==> Pairs(b.bcd)[i] == 0
  {
    NormalBytes(b);
    assert Digit(b, 0) == b.bcd[0] / 16;
  }

  lemma {:induction false} ZeroValue(s: seq<nat>)
    requires forall i :: 0 <= i < |s| ==> s[i] == 0
    ensures Value(s, 100) == 0
  {
    if s != [] { ZeroValue(s[1..]); }
  }

  /** The digits of a number other than zero fill its highest place. */
  lemma {:induction false} DigitsBound(b: Bcd)
    requires Normal(b)
    ensures Value(Pairs(b.bcd), 100) < 10 * (10 * Power(100, BYTES - 1))
    ensures Length(b) > 0 ==> Value(Pairs(b.bcd), 100) >= 10 * Power(100, BYTES - 1)
    ensures Length(b) == 0 ==> Value(Pairs(b.bcd), 100) == 0
  {
    PairsBelow(b);
    var s := Pairs(b.bcd);
    ValueBound(s, 100);
    if Length(b) == 0 { ZeroValue(s); } else { AtLeast(s[0], Power(100, BYTES - 1)); }
  }

  lemma {:induction false} AtLeast(digit: nat, unit: nat)
    requires digit >= 10
    ensures digit * unit >= 10 * unit
  {
    assert digit * unit == 10 * unit + (digit - 10) * unit;
  }

  lemma {:induction false} PowerGrows(m: nat, n: nat)
    requires m < n
    ensures Power(10, n) >= 10 * Power(10, m)
  {
    if m + 1 < n { PowerGrows(m, n - 1); }
  }

  /** The number with the greater exponent is the greater one in size. */
  lemma {:induction false} GreaterExponent(a: Bcd, b: Bcd)
    requires Normal(a) && Normal(b) && Exponent(a) < Exponent(b)
    ensures Value(Pairs(a.bcd), 100) * Power(10, Exponent(a)) < Value(Pairs(b.bcd), 100) * Power(10, Exponent(b))
  {
    hide Power, Value, Normal;
    DigitsBound(a);
    DigitsBound(b);
    PowerGrows(Exponent(a), Exponent(b));
    Scales(Value(Pairs(a.bcd), 100), Value(Pairs(b.bcd), 100), 10 * Power(100, BYTES - 1),
           Power(10, Exponent(a)), Power(10, Exponent(b)));
  }

  lemma {:induction false} Scales(x: nat, y: nat, unit: nat, p: nat, q: nat)
    requires x < 10 * unit && unit <= y && q >= 10 * p && p > 0
    ensures x * p < y * q
  {
    assert x * p + p <= 10 * unit * p by { Product(x, 10 * unit, p); }
    assert y * q == unit * q + (y - unit) * q;
    assert unit * q == unit * (10 * p) + unit * (q - 10 * p);
    assert unit * (10 * p) == 10 * unit * p;
  }

  lemma {:induction false} ScaleKeepsOrder(x: nat, y: nat, p: nat)
    requires p > 0
    ensures Sign(x * p - y * p) == Sign(x - y)
  {
    if x < y { Product(x, y, p); }
    if y < x { Product(y, x, p); }
  }

  lemma {:induction false} NegativeIsNotZero(b: Bcd)
    requires Normal(b) && SignOf(b) == -1
    ensures Value(Pairs(b.bcd), 100) * Power(10, Exponent(b)) > 0
  {
    hide Power;
    DigitsBound(b);
    Scales(0, Value(Pairs(b.bcd), 100), 10 * Power(100, BYTES - 1), 1, 10);
    ScaleKeepsOrder(Value(Pairs(b.bcd), 100), 0, Power(10, Exponent(b)));
  }

  /** The comparison of two keys is the comparison of the numbers they stand for. */
  lemma {:induction false} CmpIsNumeric(a: Bcd, b: Bcd)
    requires Normal(a) && Normal(b)
    ensures Sign(Cmp(a, b)) == Sign(Number(a) - Number(b))
  {
    hide Power, Value, Normal, Pairs, Number;
    NumberIs(a);
    NumberIs(b);
    if SignOf(a) != SignOf(b) {
      if SignOf(a) == -1 { NegativeIsNotZero(a); } else { NegativeIsNotZero(b); }
    } else if Exponent(a) < Exponent(b) {
      GreaterExponent(a, b);
    } else if Exponent(b) < Exponent(a) {
      GreaterExponent(b, a);
    } else {
      SameExponent(a, b);
      ScaleKeepsOrder(Value(Pairs(a.bcd), 100), Value(Pairs(b.bcd), 100), Power(10, Exponent(a)));
    }
  }

  /** So it is a total order on the numbers. */
  lemma {:induction false} CmpIsOrder(a: Bcd, b: Bcd, c: Bcd)
    requires Normal(a) && Normal(b) && Normal(c)
    ensures Sign(Cmp(a, b)) == -Sign(Cmp(b, a))
    ensures Cmp(a, b) <= 0 && Cmp(b, c) <= 0 ==> Cmp(a, c) <= 0
    ensures Cmp(a, b) == 0 <==> Number(a) == Number(b)
  {
    hide Cmp, Number, Normal;
    CmpIsNumeric(a, b);
    CmpIsNumeric(b, a);
    CmpIsNumeric(b, c);
    CmpIsNumeric(a, c);
  }
}
