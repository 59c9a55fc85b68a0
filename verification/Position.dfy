/** The position of a record in a table as a fraction, and back. */
module Positions {
  datatype Where = AtEof | AtTop | AtRecord(rec: int)

  /** The position of record `rec` of a table of `count` records, with no tag selected. */
  function Position(count: int, rec: int): real
    requires count >= 0
  {
    if count == 0 || rec <= 0 then 0.0
    else (rec - 1) as real / (count - if count != 1 then 1 else 0) as real
  }

  /** A conversion to a whole number drops the fraction, towards zero. */
  function Truncated(x: real): int {
    if x < 0.0 then -((-x).Floor) else x.Floor
  }

  function NewRec(count: int, per: real): int {
    Truncated(per * (count as real - 1.0) + 1.5)
  }

  /** Where setting the position goes. */
  function PositionSet(count: int, per: real): Where
    requires count >= 0
  {
    if per > 1.0 then AtEof
    else if per <= 0.0 then AtTop
    else if count <= 0 then AtEof
    else
      var newRec := NewRec(count, per);
      AtRecord(if newRec > count then count else newRec)
  }

  /** The record reached: the top of a table that has records is the first. */
  function Reached(count: int, w: Where): int {
    match w
    case AtEof => count + 1
    case AtTop => 1
    case AtRecord(rec) => rec
  }

  lemma {:induction false} DivideBack(a: real, b: real)
    requires b > 0.0
    ensures a / b * b == a
  {
  }

  lemma {:induction false} FractionIn(a: real, b: real)
    requires b > 0.0 && 0.0 < a <= b
    ensures 0.0 < a / b <= 1.0
  {
  }

  /** The position reported leads back to the record, and behind the last one back to the end, except at the end of a
      table of one record; before the first one it leads to the top. */
  lemma {:induction false} RoundTrip(count: int, rec: int)
    requires 0 <= count && rec <= count + 1
    ensures Reached(count, PositionSet(count, Position(count, rec))) == rec <==> 1 <= rec && !(count == 1 && rec == 2)
    ensures rec <= 0 ==> PositionSet(count, Position(count, rec)) == AtTop
    ensures rec == count + 1 && count > 1 ==> PositionSet(count, Position(count, rec)) == AtEof
  {
    if 1 < rec <= count {
      var a, b := (rec - 1) as real, (count - 1) as real;
      FractionIn(a, b);
      DivideBack(a, b);
      assert (a + 1.5).Floor == rec;
    } else if rec == count + 1 && count > 1 {
      FractionOver(count as real, (count - 1) as real);
    }
  }

  lemma {:induction false} FractionOver(a: real, b: real)
    requires 0.0 < b < a
    ensures a / b > 1.0
  {
  }

  /** A position over the whole leads behind the last record, and any position of an empty table that is not the top. */
  lemma {:induction false} PastTheEnd(count: int, per: real)
    requires 0 <= count
    ensures PositionSet(count, per) == AtEof <==> per > 1.0 || (per > 0.0 && count == 0)
    ensures PositionSet(count, per) == AtTop <==> per <= 0.0
    ensures PositionSet(count, per) == AtEof ==> Reached(count, PositionSet(count, per)) == count + 1
  {
  }

  /** A fraction leads to a record of the table, within half a step of where it points. */
  lemma {:induction false} Near(count: int, per: real)
    requires count >= 1 && 0.0 < per <= 1.0
    ensures var rec := Reached(count, PositionSet(count, per));
            && 1 <= rec <= count
            && (count > 1 ==> -0.5 <= (rec - 1) as real - per * (count - 1) as real <= 0.5)
  {
    var last := (count - 1) as real;
    Scaled(per, last);
    assert 0.0 <= per * last <= last;
  }

  lemma {:induction false} Scaled(per: real, x: real)
    requires 0.0 < per <= 1.0 && x >= 0.0
    ensures 0.0 <= per * x <= x
  {
  }

  /** Half a record step as a fraction of the table. */
  lemma {:induction false} NearAsFraction(count: int, per: real)
    requires count > 1 && 0.0 < per <= 1.0
    ensures var rec := Reached(count, PositionSet(count, per));
            1 <= rec <= count && -0.5 / (count - 1) as real <= Position(count, rec) - per <= 0.5 / (count - 1) as real
  {
    Near(count, per);
    var rec := Reached(count, PositionSet(count, per));
    var last := (count - 1) as real;
    DivideOver((rec - 1) as real, per, last);
  }

  lemma {:induction false} DivideOver(a: real, per: real, x: real)
    requires x > 0.0 && -0.5 <= a - per * x <= 0.5
    ensures -0.5 / x <= a / x - per <= 0.5 / x
  {
    assert a / x - per == (a - per * x) / x;
    DivideMonotone(-0.5, a - per * x, x);
    DivideMonotone(a - per * x, 0.5, x);
  }

  lemma {:induction false} DivideMonotone(a: real, b: real, x: real)
    requires x > 0.0 && a <= b
    ensures a / x <= b / x
  {
  }

  lemma {:induction false} NewRecMonotone(count: int, per: real, per': real)
    requires count >= 1 && 0.0 < per <= per' <= 1.0
    ensures NewRec(count, per) <= NewRec(count, per')
  {
    var last := count as real - 1.0;
    ScaledMonotone(per, per', last);
    Scaled(per, last);
    FloorMonotone(per * last + 1.5, per' * last + 1.5);
  }

  /** A greater fraction does not lead to an earlier record. */
  lemma {:induction false} Monotone(count: int, per: real, per': real)
    requires count >= 1 && per <= per'
    ensures Reached(count, PositionSet(count, per)) <= Reached(count, PositionSet(count, per'))
  {
    hide NewRec;
    if 0.0 < per' <= 1.0 {
      Near(count, per');
      if 0.0 < per { NewRecMonotone(count, per, per'); }
    } else if 0.0 < per <= 1.0 {
      Near(count, per);
    }
  }

  lemma {:induction false} ScaledMonotone(a: real, b: real, x: real)
    requires a <= b && x >= 0.0
    ensures a * x <= b * x
  {
  }

  lemma {:induction false} FloorMonotone(a: real, b: real)
    requires a <= b
    ensures a.Floor <= b.Floor
  {
  }
}
