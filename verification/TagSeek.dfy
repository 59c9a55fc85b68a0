/** Seeking the ends of a range of keys in one tag.

    The keys have one length and are compared as bytes; a constant may be shorter than a key and then
    stands for every key it begins.  The tag is the sorted list of its entries with a cursor, which is past
    the last of them when it is at the end. */
module TagSeeks {
  import opened Wrappers
  import opened Bytes
  import opened Digits
  import Constants

  datatype Entry = Entry(key: seq<Byte>, rec: nat)

  /** How an entry compares with a constant. */
  function Rank(e: Entry, c: seq<Byte>): int
    requires |c| <= |e.key|
  {
    Compare(e.key[..|c|], c)
  }

  ghost predicate Keys(es: seq<Entry>, n: nat) {
    forall i :: 0 <= i < |es| ==> |es[i].key| == n
  }

  ghost predicate Sorted(es: seq<Entry>, n: nat)
    requires Keys(es, n)
  {
    forall i, j :: 0 <= i < j < |es| ==> Compare(es[i].key, es[j].key) <= 0
  }

  /** No two entries name the same record. */
  ghost predicate OncePerRecord(es: seq<Entry>) {
    forall i, j :: 0 <= i < j < |es| ==> es[i].rec != es[j].rec
  }

  lemma {:induction false} BytesBelow(s: seq<Byte>)
    ensures Below(s, 256)
  {
  }

  lemma {:induction false} PrefixOrder(s: seq<Byte>, t: seq<Byte>, n: nat)
    requires |s| == |t| && n <= |s| && Compare(s, t) <= 0
    ensures Compare(s[..n], t[..n]) <= 0
  {
    if n > 0 && s[0] == t[0] {
      assert s[..n][1..] == s[1..][..n - 1] && t[..n][1..] == t[1..][..n - 1];
      PrefixOrder(s[1..], t[1..], n - 1);
    }
  }

  /** Later entries do not rank lower, whatever the length of the constant. */
  lemma {:induction false} RankGrows(es: seq<Entry>, n: nat, c: seq<Byte>, i: nat, j: nat)
    requires Keys(es, n) && Sorted(es, n) && |c| <= n && i <= j < |es|
    ensures Rank(es[i], c) >= 0 ==> Rank(es[j], c) >= 0
    ensures Rank(es[i], c) > 0 ==> Rank(es[j], c) > 0
  {
    if i < j {
      var s, t := es[i].key, es[j].key;
      PrefixOrder(s, t, |c|);
      BytesBelow(s[..|c|]);
      BytesBelow(t[..|c|]);
      BytesBelow(c);
      CompareIsOrder(s[..|c|], t[..|c|], 256);
      CompareIsOrder(s[..|c|], c, 256);
      CompareIsOrder(t[..|c|], c, 256);
    }
  }

  /** The first entry from `from` on that does not rank below the constant. */
  function First(es: seq<Entry>, n: nat, c: seq<Byte>, from: nat): (i: nat)
    requires Keys(es, n) && |c| <= n && from <= |es|
    ensures from <= i <= |es| && (i < |es| ==> Rank(es[i], c) >= 0)
    ensures forall j :: from <= j < i ==> Rank(es[j], c) < 0
    decreases |es| - from
  {
    if from == |es| || Rank(es[from], c) >= 0 then from else First(es, n, c, from + 1)
  }

  /** How many entries are less than the constant, and how many are not greater. */
  ghost function Low(es: seq<Entry>, n: nat, c: seq<Byte>): (i: nat)
    requires Keys(es, n) && |c| <= n
    ensures i <= |es|
  {
    First(es, n, c, 0)
  }

  ghost function High(es: seq<Entry>, n: nat, c: seq<Byte>): (i: nat)
    requires Keys(es, n) && |c| <= n
    ensures i <= |es|
  {
    Count(es, n, c, |es|)
  }

  /** Of the first `m` entries, those that are not greater than the constant. */
  ghost function Count(es: seq<Entry>, n: nat, c: seq<Byte>, m: nat): (i: nat)
    requires Keys(es, n) && |c| <= n && m <= |es|
    ensures i <= m
  {
    if m == 0 then 0 else Count(es, n, c, m - 1) + if Rank(es[m - 1], c) <= 0 then 1 else 0
  }

  lemma {:induction false} HighSplits(es: seq<Entry>, n: nat, c: seq<Byte>, m: nat)
    requires Keys(es, n) && Sorted(es, n) && |c| <= n && m <= |es|
    ensures forall i :: 0 <= i < m ==> (Rank(es[i], c) <= 0 <==> i < Count(es, n, c, m))
  {
    if m > 0 {
      HighSplits(es, n, c, m - 1);
      forall i | 0 <= i < m - 1 ensures Rank(es[i], c) > 0 ==> Rank(es[m - 1], c) > 0 { RankGrows(es, n, c, i, m - 1); }
      if Count(es, n, c, m - 1) < m - 1 { assert Rank(es[m - 2], c) > 0; }
    }
  }

  lemma {:induction false} LowSplits(es: seq<Entry>, n: nat, c: seq<Byte>)
    requires Keys(es, n) && Sorted(es, n) && |c| <= n
    ensures forall i :: 0 <= i < |es| ==> (Rank(es[i], c) < 0 <==> i < Low(es, n, c))
  {
    forall i | Low(es, n, c) <= i < |es| ensures Rank(es[i], c) >= 0 { RankGrows(es, n, c, Low(es, n, c), i); }
  }

  /** The next constant of the same length, if there is one. */
  function Increment(c: seq<Byte>): (r: Option<seq<Byte>>)
    ensures r.Some? ==> |r.value| == |c|
  {
    if c == [] then None
    else
      var n := |c| - 1;
      if c[n] != 255 then Some(c[..n] + [c[n] + 1])
      else
        var carried := Increment(c[..n]);
        if carried.None? then None else Some(carried.value + [0])
  }

  lemma {:induction false} IncrementAdds(c: seq<Byte>)
    requires Increment(c).Some?
    ensures Value(Increment(c).value, 256) == Value(c, 256) + 1
  {
    var n, d := |c| - 1, Increment(c).value;
    DropLast(c, 256);
    DropLast(d, 256);
    assert d[..n] == if c[n] != 255 then c[..n] else Increment(c[..n]).value;
    if c[n] == 255 { IncrementAdds(c[..n]); }
  }

  /** An entry is below the next constant exactly when it is not above this one. */
  lemma {:induction false} BelowNext(e: Entry, c: seq<Byte>)
    requires |c| <= |e.key| && Increment(c).Some?
    ensures Rank(e, Increment(c).value) < 0 <==> Rank(e, c) <= 0
  {
    var d, s := Increment(c).value, e.key[..|c|];
    IncrementAdds(c);
    BytesBelow(s);
    BytesBelow(c);
    BytesBelow(d);
    CompareIsOrder(s, c, 256);
    CompareIsOrder(s, d, 256);
  }

  lemma {:induction false} CutAt(es: seq<Entry>, n: nat, c: seq<Byte>, i: nat)
    requires Keys(es, n) && Sorted(es, n) && |c| <= n && Increment(c).Some? && i < |es|
    ensures i < Low(es, n, Increment(c).value) <==> i < High(es, n, c)
  {
    LowSplits(es, n, Increment(c).value);
    HighSplits(es, n, c, |es|);
    BelowNext(es[i], c);
  }

  /** So a search for the next constant finds where the entries for this one end. */
  lemma {:induction false} LowNext(es: seq<Entry>, n: nat, c: seq<Byte>)
    requires Keys(es, n) && Sorted(es, n) && |c| <= n && Increment(c).Some?
    ensures Low(es, n, Increment(c).value) == High(es, n, c)
  {
    var low, high := Low(es, n, Increment(c).value), High(es, n, c);
    if low < |es| { CutAt(es, n, c, low); }
    if high < |es| { CutAt(es, n, c, high); }
  }

  class Tag {
    const entries: seq<Entry>
    const keyLen: nat
    var at: nat
    var descending: bool

    constructor (entries: seq<Entry>, keyLen: nat)
      requires Keys(entries, keyLen) && Sorted(entries, keyLen) && OncePerRecord(entries)
      ensures Valid() && this.entries == entries && this.keyLen == keyLen && !descending
    {
      this.entries, this.keyLen, at, descending := entries, keyLen, 0, false;
    }

    ghost predicate Valid()
      reads this
    {
      Keys(entries, keyLen) && Sorted(entries, keyLen) && OncePerRecord(entries) && at <= |entries|
    }

    predicate Eof()
      reads this
    {
      at >= |entries|
    }

    /** Where a descending search for a constant that has no next one ends: the key sought is then all zeros. */
    ghost function Overrun(c: seq<Byte>): nat
      requires Keys(entries, keyLen) && |c| <= keyLen
    {
      if entries != [] && entries[0].key[..|c|] == Zeros(|c|) then |entries| - 1 else |entries|
    }

    /** Searches for a constant: forwards for the first entry not below it, descending for the last one
        not above it. */
    method Seek(c: seq<Byte>)
      requires Valid() && |c| <= keyLen
      modifies this`at
      ensures Valid()
      ensures !descending ==> at == Low(entries, keyLen, c)
      ensures descending && Increment(c).Some? ==>
                at == if High(entries, keyLen, c) == 0 then |entries| else High(entries, keyLen, c) - 1
      ensures descending && Increment(c).None? ==> at == Overrun(c)
    {
      if !descending {
        at := First(entries, keyLen, c, 0);
        return;
      }
      var next := Increment(c);
      if next.None? {
        at := First(entries, keyLen, Zeros(|c|), 0);
        if entries != [] { ZerosLowest(entries[0].key[..|c|]); }
        if at < |entries| && Rank(entries[at], Zeros(|c|)) == 0 {
          at := |entries| - 1;
        } else {
          at := |entries|;
        }
        return;
      }
      LowNext(entries, keyLen, c);
      at := First(entries, keyLen, next.value, 0);
      var moved := Skip(-1);
      if moved == 0 {
        at := |entries|;
      }
    }

    /** One step forwards or back; answers how far it went. */
    method Skip(n: int) returns (moved: int)
      requires Valid() && (n == 1 || n == -1)
      modifies this`at
      ensures Valid()
      ensures n == -1 ==> if old(at) > 0 then moved == -1 && at == old(at) - 1 else moved == 0 && at == old(at)
      ensures n == 1 && old(at) < |entries| ==>
                if old(at) + 1 < |entries| then moved == 1 && at == old(at) + 1 else moved == 0 && at == old(at)
    {
      moved := 0;
      if n == -1 && at > 0 {
        at, moved := at - 1, -1;
      } else if n == 1 && at + 1 < |entries| {
        at, moved := at + 1, 1;
      }
    }

    /** The end of a range: 0 the last entry below the constant, 1 the first not below it, 2 the last not
        above it, 3 the first above it. */
    ghost function Wanted(c: seq<Byte>, location: nat): Option<nat>
      requires Keys(entries, keyLen) && |c| <= keyLen && location <= 3
    {
      var low, high := Low(entries, keyLen, c), High(entries, keyLen, c);
      match location
      case 0 => if low > 0 then Some(entries[low - 1].rec) else None
      case 1 => if low < |entries| then Some(entries[low].rec) else None
      case 2 => if high > 0 then Some(entries[high - 1].rec) else None
      case _ => if high < |entries| then Some(entries[high].rec) else None
    }

    /** Where the search for an end lands, before it is adjusted. */
    ghost function Landing(c: seq<Byte>, location: nat): (i: nat)
      requires Keys(entries, keyLen) && |c| <= keyLen && location <= 3
      ensures i <= |entries|
    {
      var high := High(entries, keyLen, c);
      if location <= 1 then Low(entries, keyLen, c)
      else if Increment(c).None? then Overrun(c)
      else if high == 0 then |entries|
      else high - 1
    }

    ghost predicate Refused(c: seq<Byte>, location: nat, check: Option<nat>)
      requires Keys(entries, keyLen) && |c| <= keyLen && location <= 3
    {
      var at := Landing(c, location);
      check.Some? && at < |entries| && check.value == entries[at].rec
    }

    /** What the search for an end answers; `unread` is the record of a cursor past the last entry. */
    ghost function EndOf(c: seq<Byte>, location: nat, check: Option<nat>, unread: nat): Option<nat>
      requires Keys(entries, keyLen) && |c| <= keyLen && location <= 3
    {
      var at := Landing(c, location);
      var to := match location
                case 0 => if at > 0 then at - 1 else |entries|
                case 3 => if at == |entries| then 0 else at + 1
                case _ => at;
      if Refused(c, location, check) || (location != 2 && to >= |entries|) then None
      else if to < |entries| then Some(entries[to].rec)
      else Some(unread)
    }

    /** Seeks the end of a range, and not the record `check` that the other end of the range has. */
    method SeekEnd(c: seq<Byte>, location: nat, check: Option<nat>, unread: nat) returns (r: Option<nat>)
      requires Valid() && |c| <= keyLen && location <= 3
      modifies this
      ensures Valid() && !descending
      ensures r == EndOf(c, location, check, unread)
    {
      hide Sorted, OncePerRecord, Keys, First, Count, Increment;
      descending := location > 1;
      Seek(c);
      descending := false;
      if check.Some? && !Eof() && check.value == entries[at].rec {
        return None;
      }
      match location {
      case 0 =>
        var moved := Skip(-1);
        if moved != -1 {
          return None;
        }
      case 1 =>
        if Eof() {
          return None;
        }
      case 2 =>
      case _ =>
        if Eof() {
          if |entries| == 0 {
            return None;
          }
          at := 0;
        } else {
          var moved := Skip(1);
          if moved == 0 {
            return None;
          }
        }
      }
      r := Some(if Eof() then unread else entries[at].rec);
    }
  }

  /** No bytes are below zeros, and only zeros are level with them. */
  lemma {:induction false} ZerosLowest(s: seq<Byte>)
    ensures Compare(s, Zeros(|s|)) >= 0
    ensures Compare(s, Zeros(|s|)) == 0 <==> s == Zeros(|s|)
  {
    if s != [] {
      assert Zeros(|s|)[1..] == Zeros(|s| - 1);
      ZerosLowest(s[1..]);
      assert s == [s[0]] + s[1..] && Zeros(|s|) == [0] + Zeros(|s| - 1);
    }
  }

  lemma {:induction false} NoNextIsTop(c: seq<Byte>, s: seq<Byte>)
    requires Increment(c).None? && |s| == |c|
    ensures Compare(s, c) <= 0
  {
    AllTop(c);
    TopHighest(s, c);
  }

  lemma {:induction false} AllTop(c: seq<Byte>)
    requires Increment(c).None?
    ensures forall i :: 0 <= i < |c| ==> c[i] == 255
  {
    if c != [] { AllTop(c[..|c| - 1]); }
  }

  lemma {:induction false} TopHighest(s: seq<Byte>, c: seq<Byte>)
    requires |s| == |c| && forall i :: 0 <= i < |c| ==> c[i] == 255
    ensures Compare(s, c) <= 0
  {
    if c != [] { TopHighest(s[1..], c[1..]); }
  }

  /** On which side of the constant the entries of an end lie. */
  predicate OnSide(e: Entry, c: seq<Byte>, location: nat)
    requires |c| <= |e.key|
  {
    match location
    case 0 => Rank(e, c) < 0
    case 1 => Rank(e, c) >= 0
    case 2 => Rank(e, c) <= 0
    case _ => Rank(e, c) > 0
  }

  /** The end that is wanted is the outermost entry on its side: the last one below, or not above, the first one not
      below, or above; and none where no entry is on that side. */
  lemma {:induction false} WantedIsOutermost(t: Tag, c: seq<Byte>, location: nat, i: nat)
    requires t.Valid() && |c| <= t.keyLen && location <= 3 && i < |t.entries|
    ensures t.Wanted(c, location) == Some(t.entries[i].rec)
            <==> && OnSide(t.entries[i], c, location)
                 && forall j :: 0 <= j < |t.entries| && OnSide(t.entries[j], c, location) ==>
                      if location in {0, 2} then j <= i else i <= j
    ensures t.Wanted(c, location) == None
            <==> forall j :: 0 <= j < |t.entries| ==> !OnSide(t.entries[j], c, location)
  {
    hide OnSide, Low, High;
    var es := t.entries;
    var low: int, high: int := Low(es, t.keyLen, c), High(es, t.keyLen, c);
    forall j | 0 <= j < |es| ensures OnSide(es[j], c, location) <==> Cut(low, high, location, j) {
      SideIsCut(t, c, location, j);
    }
    var at := match location case 0 => low - 1 case 1 => low case 2 => high - 1 case _ => high;
    if 0 <= at < |es| {
      assert OnSide(es[at], c, location);
      assert es[at].rec == es[i].rec ==> at == i;
    }
  }

  predicate Cut(low: int, high: int, location: nat, j: nat) {
    match location
    case 0 => j < low
    case 1 => j >= low
    case 2 => j < high
    case _ => j >= high
  }

  lemma {:induction false} SideIsCut(t: Tag, c: seq<Byte>, location: nat, j: nat)
    requires t.Valid() && |c| <= t.keyLen && location <= 3 && j < |t.entries|
    ensures OnSide(t.entries[j], c, location)
            <==> Cut(Low(t.entries, t.keyLen, c), High(t.entries, t.keyLen, c), location, j)
  {
    LowSplits(t.entries, t.keyLen, c);
    HighSplits(t.entries, t.keyLen, c, |t.entries|);
  }

  /** Whether the tag has a first entry and its key begins with as many zeros as the constant has bytes. */
  ghost predicate StartsLow(t: Tag, c: seq<Byte>)
    requires Keys(t.entries, t.keyLen) && |c| <= t.keyLen
  {
    t.entries != [] && t.entries[0].key[..|c|] == Zeros(|c|)
  }

  /** With no record to avoid the end that is wanted is answered, for a constant that has a next one, except
      where the last entry not above it is sought and there is none. */
  lemma {:induction false} EndIsWanted(t: Tag, c: seq<Byte>, location: nat, unread: nat)
    requires t.Valid() && |c| <= t.keyLen && location <= 3 && (location > 1 ==> Increment(c).Some?)
    ensures t.EndOf(c, location, None, unread) == t.Wanted(c, location)
            <==> location != 2 || High(t.entries, t.keyLen, c) > 0
  {
  }

  /** Nothing is above a constant that has no next one, and every entry is not above it.  The last of them is
      answered exactly when the first key of the tag begins with zeros, or what is read past the end happens
      to be it; and that there is no first entry above, exactly when that key does or there is no entry. */
  lemma {:induction false} AboveTheTop(t: Tag, c: seq<Byte>, unread: nat)
    requires t.Valid() && |c| <= t.keyLen && Increment(c).None?
    ensures High(t.entries, t.keyLen, c) == |t.entries|
    ensures t.EndOf(c, 2, None, unread) == t.Wanted(c, 2)
            <==> t.entries != [] && (StartsLow(t, c) || unread == t.entries[|t.entries| - 1].rec)
    ensures t.EndOf(c, 3, None, unread) == t.Wanted(c, 3) <==> t.entries == [] || StartsLow(t, c)
  {
    HighSplits(t.entries, t.keyLen, c, |t.entries|);
    var high := High(t.entries, t.keyLen, c);
    if high < |t.entries| { NoNextIsTop(c, t.entries[high].key[..|c|]); }
  }

  /** A record to avoid changes the answer exactly when it is that of the entry the search lands on: the first
      not below the constant, or the last not above it; for one that has no next one that is the last entry, and
      it is landed on only where the first key begins with zeros. */
  lemma {:induction false} CheckRefuses(t: Tag, c: seq<Byte>, location: nat, check: nat, unread: nat)
    requires t.Valid() && |c| <= t.keyLen && location <= 3
    ensures var on := if location <= 1 then t.Wanted(c, 1)
                      else if Increment(c).Some? then t.Wanted(c, 2)
                      else if StartsLow(t, c) then Some(t.entries[|t.entries| - 1].rec) else None;
            t.EndOf(c, location, Some(check), unread)
            == if on == Some(check) then None else t.EndOf(c, location, None, unread)
  {
  }

  /** The only entry is not above the constant, and its record is not answered. */
  method LastNotAboveMissed(unread: nat) returns (t: Tag, r: Option<nat>)
    ensures t.Valid() && t.entries == [Entry([1], 7)] && t.keyLen == 1
    ensures t.Wanted([255], 2) == Some(7) && r == Some(unread)
  {
    t := new Tag([Entry([1], 7)], 1);
    AboveTheTop(t, [255], unread);
    r := t.SeekEnd([255], 2, None, unread);
  }

  /** No entry is above the constant, and a record is answered. */
  method FirstAboveFound() returns (t: Tag, r: Option<nat>)
    ensures t.Valid() && t.entries == [Entry([1], 7)] && t.keyLen == 1
    ensures t.Wanted([255], 3) == None && r == Some(7)
  {
    t := new Tag([Entry([1], 7)], 1);
    AboveTheTop(t, [255], 0);
    r := t.SeekEnd([255], 3, None, 0);
  }

  // ----- both ends of a range -----

  /** The entries strictly between two constants. */
  ghost predicate Between(e: Entry, a: seq<Byte>, b: seq<Byte>)
    requires |a| <= |e.key| && |b| <= |e.key|
  {
    Rank(e, a) > 0 && Rank(e, b) < 0
  }

  /** Two constants are compared as far as the shorter one goes. */
  function Shorter(a: seq<Byte>, b: seq<Byte>): (n: nat)
    ensures n <= |a| && n <= |b|
  {
    if |a| <= |b| then |a| else |b|
  }

  lemma {:induction false} OrderIsCompare(s: seq<Byte>, t: seq<Byte>)
    ensures Order(s, t) == Compare(s[..Shorter(s, t)], t[..Shorter(s, t)])
  {
    if s != [] && t != [] {
      var n := Shorter(s, t);
      assert s[..n][1..] == s[1..][..n - 1] && t[..n][1..] == t[1..][..n - 1];
      OrderIsCompare(s[1..], t[1..]);
    }
  }

  /** An entry stands to a constant as its key does: what the leaf of a query means and what is sought for it are
      the same. */
  lemma {:induction false} RankIsOrder(e: Entry, c: seq<Byte>)
    requires |c| <= |e.key|
    ensures Rank(e, c) == Constants.PlaceOf(e.key)(c)
  {
    OrderIsCompare(e.key, c);
    assert c[..|c|] == c;
  }

  /** Where prefixes differ, they decide. */
  lemma {:induction false} PrefixDecides(s: seq<Byte>, t: seq<Byte>, n: nat)
    requires |s| == |t| && n <= |s|
    ensures Compare(s[..n], t[..n]) < 0 ==> Compare(s, t) < 0
    ensures Compare(s[..n], t[..n]) > 0 ==> Compare(s, t) > 0
  {
    if n > 0 && s[0] == t[0] {
      assert s[..n][1..] == s[1..][..n - 1] && t[..n][1..] == t[1..][..n - 1];
      PrefixDecides(s[1..], t[1..], n - 1);
    }
  }

  /** How the prefix of a key stands to those of two constants. */
  lemma {:induction false} ThreeOrders(e: Entry, a: seq<Byte>, b: seq<Byte>)
    requires |a| <= |e.key| && |b| <= |e.key|
    ensures var n := Shorter(a, b);
            var s, x, y := e.key[..n], a[..n], b[..n];
            && (Compare(x, y) < 0 ==> Compare(s, y) < 0 || Compare(s, x) > 0)
            && (Compare(x, y) >= 0 && Compare(s, y) < 0 ==> Compare(s, x) < 0)
            && (Compare(x, y) >= 0 && Compare(s, y) <= 0 ==> Compare(s, x) <= 0)
  {
    var n := Shorter(a, b);
    var s, x, y := e.key[..n], a[..n], b[..n];
    BytesBelow(s);
    BytesBelow(x);
    BytesBelow(y);
    CompareIsOrder(x, y, 256);
    CompareIsOrder(s, x, 256);
    CompareIsOrder(s, y, 256);
  }

  lemma {:induction false} NotBelow(e: Entry, a: seq<Byte>, b: seq<Byte>)
    requires |a| <= |e.key| && |b| <= |e.key|
    ensures Order(a, b) < 0 ==> Rank(e, b) < 0 || Rank(e, a) > 0
    ensures Order(a, b) >= 0 ==> Rank(e, b) >= 0 || Rank(e, a) <= 0
  {
    var n := Shorter(a, b);
    OrderIsCompare(a, b);
    ThreeOrders(e, a, b);
    assert e.key[..|a|][..n] == e.key[..n] && e.key[..|b|][..n] == e.key[..n];
    PrefixDecides(e.key[..|a|], a, n);
    PrefixDecides(e.key[..|b|], b, n);
    assert n == |a| ==> a[..n] == a;
    assert n == |b| ==> b[..n] == b;
  }

  /** A constant that is below another one has a next one. */
  lemma {:induction false} LowerHasNext(a: seq<Byte>, b: seq<Byte>)
    requires Order(a, b) < 0
    ensures Increment(a).Some?
  {
    var n := Shorter(a, b);
    OrderIsCompare(a, b);
    if Increment(a).None? {
      AllTop(a);
      TopHighest(b[..n], a[..n]);
      BytesBelow(a[..n]);
      BytesBelow(b[..n]);
      CompareIsOrder(a[..n], b[..n], 256);
      CompareIsOrder(b[..n], a[..n], 256);
    }
  }

  /** Both ends of an open range, from a constant to a greater one: the second seek is to be refused exactly when
      no entry lies between them.  It is, unless the lower constant begins the upper one and there are entries
      from the one to the other and below them. */
  method SeekRange(t: Tag, a: seq<Byte>, b: seq<Byte>) returns (start: Option<nat>, end: Option<nat>)
    requires t.Valid() && |a| <= t.keyLen && |b| <= t.keyLen && Constants.Less(a, b)
    modifies t
    ensures t.Valid()
    ensures var p, q := High(t.entries, t.keyLen, a), Low(t.entries, t.keyLen, b);
            && (Increment(a).Some? ==> start == if p < |t.entries| then Some(t.entries[p].rec) else None)
            && (forall i :: 0 <= i < |t.entries| ==> (Between(t.entries[i], a, b) <==> p <= i < q))
            && (start.Some? ==>
                  ((end == None <==> forall i :: 0 <= i < |t.entries| ==> !Between(t.entries[i], a, b))
                   <==> Order(a, b) < 0 || q == 0 || (Increment(a).Some? && q == p)))
            && (start.Some? && end.Some? && Order(a, b) < 0 ==> p < q && end == Some(t.entries[q - 1].rec))
  {
    var es, n := t.entries, t.keyLen;
    if Order(a, b) < 0 { LowerHasNext(a, b); }
    LowSplits(es, n, b);
    HighSplits(es, n, a, |es|);
    forall i | 0 <= i < |es|
      ensures if Order(a, b) < 0 then Rank(es[i], b) < 0 || Rank(es[i], a) > 0
              else Rank(es[i], b) < 0 ==> Rank(es[i], a) <= 0
    {
      NotBelow(es[i], a, b);
    }
    start := t.SeekEnd(a, 3, None, 0);
    if start.None? {
      end := None;
      return;
    }
    end := t.SeekEnd(b, 0, start, 0);
  }

  const THREE := [Entry([65, 65], 1), Entry([65, 68], 2), Entry([66, 32], 3)]

  lemma {:induction false} RankOfTwo(x: int, y: int, rec: nat, a: int, b: int)
    requires 0 <= x < 256 && 0 <= y < 256 && 0 <= a < 256 && 0 <= b < 256
    ensures var e := Entry([x, y], rec); Rank(e, [a]) == x - a && Rank(e, [a, b]) == if x != a then x - a else y - b
    ensures Compare([x, y], [a, b]) == if x != a then x - a else y - b
  {
    var key: seq<Byte>, one: seq<Byte>, two: seq<Byte> := [x, y], [a], [a, b];
    assert key[..|one|] == [x] && key[..|two|] == key && key[1..] == [y] && two[1..] == [b];
    assert key[..|one|][1..] == [] && one[1..] == [];
    assert Compare(key[..|one|], one) == x - a;
    assert key[1..][1..] == [] && two[1..][1..] == [];
    assert Compare(key[1..], two[1..]) == y - b;
    assert Compare(key, two) == if x != a then x - a else y - b;
  }

  lemma {:induction false} Three()
    ensures Keys(THREE, 2) && Sorted(THREE, 2) && OncePerRecord(THREE)
    ensures Rank(THREE[0], [65, 67]) < 0 && Rank(THREE[1], [65, 67]) > 0 && Rank(THREE[2], [65, 67]) > 0
    ensures Rank(THREE[0], [65]) == 0 && Rank(THREE[1], [65]) == 0 && Rank(THREE[2], [65]) > 0
  {
    hide Rank, Compare;
    RankOfTwo(65, 65, 1, 65, 67);
    RankOfTwo(65, 68, 2, 65, 67);
    RankOfTwo(66, 32, 3, 65, 67);
    RankOfTwo(65, 65, 1, 65, 68);
    RankOfTwo(65, 65, 1, 66, 32);
    RankOfTwo(65, 68, 2, 66, 32);
  }

  lemma {:induction false} ThreeCounted()
    ensures Keys(THREE, 2) && Low(THREE, 2, [65, 67]) == 1 && High(THREE, 2, [65]) == 2
    ensures Increment([65]).Some?
  {
    hide Rank;
    Three();
    assert First(THREE, 2, [65, 67], 1) == 1;
    assert Count(THREE, 2, [65], 1) == 1 && Count(THREE, 2, [65], 2) == 2;
  }

  /** No key is above 'A' and below 'AC', and the second end is not refused. */
  method NotRefused() returns (t: Tag, start: Option<nat>, end: Option<nat>)
    ensures t.entries == THREE && t.keyLen == 2 && t.Valid() && start == Some(3) && end == Some(1)
    ensures forall i :: 0 <= i < 3 ==> !Between(t.entries[i], [65], [65, 67])
  {
    hide Low, High, Rank, Increment;
    Three();
    ThreeCounted();
    t := new Tag(THREE, 2);
    start := t.SeekEnd([65], 3, None, 0);
    end := t.SeekEnd([65, 67], 0, start, 0);
  }

  /** Both ends of what lies outside two constants, below `b` or above `a`.  The check that is meant for a range
      is made here too: the lower end is missed exactly when there are entries on both sides and none between. */
  method SeekOutside(t: Tag, a: seq<Byte>, b: seq<Byte>) returns (start: Option<nat>, end: Option<nat>)
    requires t.Valid() && |a| <= t.keyLen && |b| <= t.keyLen && Order(a, b) >= 0
    modifies t
    ensures t.Valid()
    ensures end == t.Wanted(b, 0)
            <==> !(&& Increment(a).Some? && t.Wanted(b, 0).Some? && t.Wanted(a, 3).Some?
                   && forall i :: 0 <= i < |t.entries| ==> Rank(t.entries[i], b) < 0 || Rank(t.entries[i], a) > 0)
  {
    var es, n := t.entries, t.keyLen;
    LowSplits(es, n, b);
    HighSplits(es, n, a, |es|);
    forall i | 0 <= i < |es| ensures Rank(es[i], b) >= 0 || Rank(es[i], a) <= 0 { NotBelow(es[i], a, b); }
    start := t.SeekEnd(a, 3, None, 0);
    end := t.SeekEnd(b, 0, start, 0);
  }

  /** One key is below 3 and one above 5, none from 3 to 5: the lower end is missed. */
  method LowerMissed() returns (t: Tag, start: Option<nat>, end: Option<nat>)
    ensures t.Valid() && t.keyLen == 1 && t.entries == [Entry([1], 1), Entry([7], 2)]
    ensures t.Wanted([3], 0) == Some(1) && end == None
  {
    hide Low, High, Increment;
    Two();
    t := new Tag([Entry([1], 1), Entry([7], 2)], 1);
    start := t.SeekEnd([5], 3, None, 0);
    end := t.SeekEnd([3], 0, start, 0);
  }

  lemma {:induction false} Two()
    ensures var es := [Entry([1], 1), Entry([7], 2)];
            Keys(es, 1) && Low(es, 1, [3]) == 1 && High(es, 1, [5]) == 1 && Increment([5]).Some?
  {
    var es := [Entry([1], 1), Entry([7], 2)];
    assert First(es, 1, [3], 1) == 1 && Count(es, 1, [5], 1) == 1;
  }
}
