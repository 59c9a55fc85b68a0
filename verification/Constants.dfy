/** The constants of a query and how they stand to keys and to each other.

    A constant is compared with a key as far as the constant goes, so that a short one stands for every
    key it begins.  Two constants are compared as far as the shorter one goes, and where one is the
    beginning of the other their lengths decide. */
module Constants {
  import opened Bytes
  import opened Digits

  type Const = seq<Byte>

  predicate Less(c: Const, d: Const) {
    if |c| < |d| then Order(c, d) <= 0 else Order(c, d) < 0
  }

  predicate LessEq(c: Const, d: Const) {
    if |c| <= |d| then Order(c, d) <= 0 else Order(c, d) < 0
  }

  /** The two comparisons are one total order: of constants that differ, the smaller first byte that differs comes
      first, and a constant comes before those it begins. */
  lemma {:induction false} LessIsOrder(c: Const, d: Const, e: Const)
    ensures LessEq(c, d) <==> !Less(d, c)
    ensures LessEq(c, d) <==> Less(c, d) || c == d
    ensures Less(c, d) && Less(d, e) ==> Less(c, e)
    ensures Less(c, d) <==> Precedes(c, d)
  {
    OrderFlips(c, d);
    SameLength(c, d);
    PrecedesIs(c, d);
    PrecedesIs(d, e);
    PrecedesIs(c, e);
    if Precedes(c, d) && Precedes(d, e) { PrecedesOn(c, d, e); }
  }

  /** The constants agree up to some place; there one of them ends, or has the smaller byte. */
  ghost predicate Precedes(c: Const, d: Const) {
    exists i :: 0 <= i <= |c| && i < |d| && c[..i] == d[..i] && (i == |c| || c[i] < d[i])
  }

  lemma {:induction false} PrecedesIs(c: Const, d: Const)
    ensures Less(c, d) <==> Precedes(c, d)
  {
    if c != [] && d != [] && c[0] == d[0] {
      PrecedesIs(c[1..], d[1..]);
      if Precedes(c[1..], d[1..]) {
        var i :| 0 <= i <= |c[1..]| && i < |d[1..]| && c[1..][..i] == d[1..][..i]
                 && (i == |c[1..]| || c[1..][i] < d[1..][i]);
        assert c[..i + 1] == [c[0]] + c[1..][..i] && d[..i + 1] == [d[0]] + d[1..][..i];
      }
      if Precedes(c, d) {
        var i :| 0 <= i <= |c| && i < |d| && c[..i] == d[..i] && (i == |c| || c[i] < d[i]);
        assert i > 0 && c[1..][..i - 1] == c[..i][1..] && d[1..][..i - 1] == d[..i][1..];
      }
    } else if d != [] && (c == [] || c[0] < d[0]) {
      assert c[..0] == d[..0];
    } else if c != [] && d != [] {
      assert forall i :: 0 < i <= |c| && i <= |d| ==> c[..i][0] == c[0] && d[..i][0] == d[0];
    }
  }

  lemma {:induction false} PrecedesOn(c: Const, d: Const, e: Const)
    requires Precedes(c, d) && Precedes(d, e)
    ensures Precedes(c, e)
  {
    var i :| 0 <= i <= |c| && i < |d| && c[..i] == d[..i] && (i == |c| || c[i] < d[i]);
    var j :| 0 <= j <= |d| && j < |e| && d[..j] == e[..j] && (j == |d| || d[j] < e[j]);
    var k := if i <= j then i else j;
    assert c[..k] == c[..i][..k] && d[..k] == d[..i][..k] && d[..k] == d[..j][..k] && e[..k] == e[..j][..k];
    if i < j { assert d[i] == d[..j][i] && e[i] == e[..j][i]; }
    if j < i { assert c[j] == c[..i][j] && d[j] == d[..i][j]; }
  }

  lemma {:induction false} OrderFlips(s: Const, t: Const)
    ensures Order(s, t) < 0 <==> Order(t, s) > 0
    ensures Order(s, t) > 0 <==> Order(t, s) < 0
  {
    if s != [] && t != [] && s[0] == t[0] { OrderFlips(s[1..], t[1..]); }
  }

  lemma {:induction false} SameLength(c: Const, d: Const)
    ensures Order(c, d) == 0 && |c| == |d| ==> c == d
    ensures Order(c, d) == 0 <==> Order(d, c) == 0
    ensures Order(c, c) == 0
  {
    if c != [] {
      SameLength(c[1..], if d == [] then [] else d[1..]);
      if d != [] { assert c == [c[0]] + c[1..] && d == [d[0]] + d[1..]; }
    }
  }

  /** One constant begins the other. */
  predicate Comparable(c: Const, d: Const) {
    c != d && Order(c, d) == 0
  }

  /** How something stands to each constant: below it, on it or above it. */
  type Place = Const -> int

  /** The place of a key. */
  function PlaceOf(key: seq<Byte>): Place {
    (c: Const) => Order(key, c)
  }

  // ----- constants none of which begins another -----

  ghost predicate Antichain(cs: iset<Const>) {
    forall c, d :: c in cs && d in cs ==> !Comparable(c, d)
  }

  /** A constant as a fraction, its bytes being the digits. */
  ghost function Worth(c: Const): (w: real)
    ensures 0.0 <= w < 1.0
  {
    if c == [] then 0.0 else (c[0] as real + Worth(c[1..])) / 256.0
  }

  lemma {:induction false} OrderWorth(s: Const, t: Const)
    ensures Order(s, t) < 0 ==> Worth(s) < Worth(t)
    ensures Order(s, t) > 0 ==> Worth(s) > Worth(t)
    ensures Order(s, t) == 0 <==> Order(t, s) == 0
  {
    if s != [] && t != [] && s[0] == t[0] {
      OrderWorth(s[1..], t[1..]);
    }
  }

  /** The comparisons of these constants are those of their fractions. */
  ghost predicate Ordered(cs: iset<Const>) {
    && (forall c, d {:trigger Less(c, d)} :: c in cs && d in cs ==>
          (Less(c, d) <==> Worth(c) < Worth(d)) && (c == d <==> Worth(c) == Worth(d)))
    && (forall c, d {:trigger LessEq(c, d)} :: c in cs && d in cs ==>
          (LessEq(c, d) <==> Worth(c) <= Worth(d)) && (c == d <==> Worth(c) == Worth(d)))
  }

  lemma {:induction false} Distinct(cs: iset<Const>, c: Const, d: Const)
    requires Ordered(cs) && c in cs && d in cs && c != d
    ensures Worth(c) != Worth(d)
  {
    assert Less(c, d) || !Less(c, d);
  }

  lemma {:induction false} AntichainOrdered(cs: iset<Const>)
    requires Antichain(cs)
    ensures Ordered(cs)
  {
    forall c, d | c in cs && d in cs
      ensures Less(c, d) <==> Worth(c) < Worth(d)
      ensures LessEq(c, d) <==> Worth(c) <= Worth(d)
      ensures Worth(c) == Worth(d) <==> c == d
    {
      assert !Comparable(c, d);
      OrderWorth(c, d);
      OrderSelf(c);
    }
  }

  lemma {:induction false} OrderSelf(s: Const)
    ensures Order(s, s) == 0
  {
    if s != [] { OrderSelf(s[1..]); }
  }

  /** A place stands to these constants as a number does to their fractions. */
  ghost predicate Placed(cs: iset<Const>, at: Place, p: real) {
    forall c {:trigger at(c)} :: c in cs ==> (at(c) < 0 <==> p < Worth(c)) && (at(c) > 0 <==> p > Worth(c))
  }

  ghost function PlaceAt(p: real): Place {
    (c: Const) => if p < Worth(c) then -1 else if p > Worth(c) then 1 else 0
  }

  /** What a constant that is the beginning of the key is compared with, the key is too. */
  lemma {:induction false} Begins(key: seq<Byte>, c: Const, d: Const)
    requires |c| <= |key| && Order(key, c) == 0 && Order(c, d) != 0
    ensures Order(key, d) < 0 <==> Order(c, d) < 0
    ensures Order(key, d) > 0 <==> Order(c, d) > 0
  {
    if c != [] && d != [] && c[0] == d[0] {
      Begins(key[1..], c[1..], d[1..]);
    }
  }

  /** Every key that is long enough has such a number. */
  lemma {:induction false} KeyPlaced(cs: iset<Const>, key: seq<Byte>) returns (p: real)
    requires Antichain(cs) && forall c :: c in cs ==> |c| <= |key|
    ensures Placed(cs, PlaceOf(key), p)
  {
    if c :| c in cs && Order(key, c) == 0 {
      p := Worth(c);
      forall d | d in cs
        ensures Order(key, d) < 0 <==> p < Worth(d)
        ensures Order(key, d) > 0 <==> p > Worth(d)
      {
        assert !Comparable(c, d);
        if c != d {
          Begins(key, c, d);
          OrderWorth(c, d);
        }
      }
    } else {
      p := Worth(key);
      forall d | d in cs
        ensures Order(key, d) < 0 <==> p < Worth(d)
        ensures Order(key, d) > 0 <==> p > Worth(d)
      {
        OrderWorth(key, d);
      }
    }
  }
}
