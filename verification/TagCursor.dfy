/** A cursor over the entries of one tag.

    The entries are stored in ascending order of key and then record; a descending tag is the same list
    walked backwards.  The blocks the entries lie in are not part of this model: the list is what their
    chain spells out, and a descent is the count of the keys below the one sought. */
module TagCursors {
  import opened Wrappers

  datatype Entry = Entry(key: nat, rec: nat)

  datatype Outcome = Found | After | Before | AtEof | AtBof | NoEntry

  /** What is looked for: the keys of a range, which are the whole keys that begin with a prefix, or one key;
      the empty prefix stands for every key. */
  datatype Search = Whole | Keys(lo: nat, hi: nat) {
    predicate Matches(k: nat) { Keys? ==> lo <= k <= hi }
  }

  datatype Landing = Moved(rec: nat) | Stopped(rec: nat) | AtEnd | Nowhere

  predicate Less(a: Entry, b: Entry) {
    a.key < b.key || (a.key == b.key && a.rec < b.rec)
  }

  predicate Sorted(es: seq<Entry>) {
    forall i, j :: 0 <= i < j < |es| ==> Less(es[i], es[j])
  }

  /** How many entries sort before `e`: where `e` would be put in. */
  function Ahead(es: seq<Entry>, e: Entry): (n: nat)
    ensures n <= |es|
  {
    if es == [] || !Less(es[0], e) then 0 else 1 + Ahead(es[1..], e)
  }

  lemma {:induction false} AheadSplits(es: seq<Entry>, e: Entry)
    requires Sorted(es)
    ensures forall i :: 0 <= i < Ahead(es, e) ==> Less(es[i], e)
    ensures forall i :: Ahead(es, e) <= i < |es| ==> !Less(es[i], e)
  {
    if es != [] {
      var rest := es[1..];
      assert forall i :: 0 <= i < |rest| ==> rest[i] == es[i + 1];
      AheadSplits(rest, e);
      assert forall i :: 0 < i < |es| ==> es[i] == rest[i - 1];
      assert forall i :: 0 < i < |es| ==> Less(es[0], es[i]);
    }
  }

  lemma {:induction false} AheadAll(es: seq<Entry>, e: Entry)
    requires forall i :: 0 <= i < |es| ==> Less(es[i], e)
    ensures Ahead(es, e) == |es|
  {
    if es != [] { AheadAll(es[1..], e); }
  }

  lemma {:induction false} AheadOf(es: seq<Entry>, i: nat)
    requires Sorted(es) && i < |es|
    ensures Ahead(es, es[i]) == i
  {
    if i > 0 {
      var rest := es[1..];
      assert forall j :: 0 <= j < |rest| ==> rest[j] == es[j + 1];
      assert Less(es[0], es[i]);
      AheadOf(rest, i - 1);
    }
  }

  /** How many entries have a key below `k`. */
  function Below(es: seq<Entry>, k: nat): (n: nat)
    ensures n <= |es|
  {
    Ahead(es, Entry(k, 0))
  }

  lemma {:induction false} BelowSplits(es: seq<Entry>, k: nat)
    requires Sorted(es)
    ensures forall i :: 0 <= i < Below(es, k) ==> es[i].key < k
    ensures forall i :: Below(es, k) <= i < |es| ==> es[i].key >= k
  {
    AheadSplits(es, Entry(k, 0));
  }

  predicate InTable(e: Entry, count: nat) {
    1 <= e.rec <= count
  }

  /** The first entry from `i` on, going up or down, that names a record of the table. */
  function Named(es: seq<Entry>, i: int, up: bool, count: nat): (r: Option<nat>)
    ensures r.Some? ==> r.value < |es| && InTable(es[r.value], count) && (if up then i <= r.value else r.value <= i)
    ensures r.Some? ==>
              forall j :: 0 <= j < |es| && (if up then i <= j < r.value else r.value < j <= i) ==>
                !InTable(es[j], count)
    ensures r.None? ==> forall j :: 0 <= j < |es| && (if up then i <= j else j <= i) ==> !InTable(es[j], count)
    decreases if up then |es| - i else i
  {
    if i < 0 then if up then Named(es, i + 1, up, count) else None
    else if i >= |es| then if up then None else Named(es, i - 1, up, count)
    else if InTable(es[i], count) then Some(i)
    else Named(es, if up then i + 1 else i - 1, up, count)
  }

  /** The index a walk starts from, and whether the record itself has no entry there. */
  datatype Start = Start(at: int, near: bool) | Beyond

  function IndexOf(es: seq<Entry>, e: Entry): (i: nat)
    requires e in es
    ensures i < |es| && es[i] == e
  {
    if es[0] == e then 0 else 1 + IndexOf(es[1..], e)
  }

  lemma {:induction false} OneIndex(es: seq<Entry>, i: nat)
    requires Sorted(es) && i < |es|
    ensures IndexOf(es, es[i]) == i
  {
    forall j | 0 <= j < |es| && j != i ensures es[j] != es[i] {
      assert if j < i then Less(es[j], es[i]) else Less(es[i], es[j]);
    }
  }

  class TagCursor<Row> {
    const entries: seq<Entry>
    const descending: bool
    const limit: nat
    const keyOf: Row -> nat
    var placed: bool
    var index: nat
    var eof: bool
    var bof: bool
    var atNearest: bool
    var searching: bool
    var active: Search

    constructor (entries: seq<Entry>, descending: bool, limit: nat, keyOf: Row -> nat)
      requires Sorted(entries) && (forall i :: 0 <= i < |entries| ==> entries[i].key <= limit)
      ensures Valid() && !placed && !atNearest && !searching
      ensures this.entries == entries && this.descending == descending && this.limit == limit && this.keyOf == keyOf
    {
      this.entries, this.descending, this.limit, this.keyOf := entries, descending, limit, keyOf;
      placed, index, eof, bof, atNearest := false, 0, true, true, false;
      searching, active := false, Whole;
    }

    ghost predicate Valid()
      reads this
    {
      && Sorted(entries) && (forall i :: 0 <= i < |entries| ==> entries[i].key <= limit)
      && (index < |entries| || index == 0)
      && Searchable(active)
    }

    predicate OnKey()
      reads this
    {
      !eof && !bof && placed && entries != []
    }

    /** The entry the cursor is on. */
    ghost predicate At(i: int)
      reads this
    {
      OnKey() && index == i
    }

    /** One step towards greater keys, or lesser ones. */
    method StepPhysical(up: bool) returns (moved: bool)
      requires Valid()
      modifies this`index, this`eof, this`bof
      ensures Valid()
      ensures old(OnKey()) ==> moved == (0 <= (if up then old(index) + 1 else old(index) - 1) < |entries|)
      ensures old(OnKey()) && moved ==> At(if up then old(index) + 1 else old(index) - 1)
      ensures old(OnKey()) && !moved ==> index == old(index) && !OnKey() && eof == (up == !descending) && bof == !eof
      ensures placed && entries == [] ==> !moved
      ensures moved ==> OnKey()
      ensures old(placed && !eof && !bof) && !moved ==> eof == (up == !descending) && bof == !eof
    {
      if !placed {
        return false;
      }
      if eof && !up && index < |entries| {
        eof, bof := false, false;
        return true;
      }
      if bof && up && index < |entries| {
        eof, bof := false, false;
        return true;
      }
      var next := if up then index + 1 else index - 1;
      if 0 <= next < |entries| {
        index, eof, bof := next, false, false;
        return true;
      }
      if up == !descending {
        eof := true;
      } else {
        bof := true;
      }
      moved := false;
    }

    /** A descent to the first entry with a key at or above `k`. */
    method SeekFirstAtOrAbove(k: nat) returns (landed: bool)
      requires Valid()
      modifies this`placed, this`index, this`eof, this`bof
      ensures Valid() && placed
      ensures landed <==> Below(entries, k) < |entries|
      ensures if landed then At(Below(entries, k))
              else eof && !bof && index == (if entries == [] then 0 else |entries| - 1)
    {
      placed, eof, bof := true, false, false;
      var at := Below(entries, k);
      if at < |entries| {
        index := at;
        return true;
      }
      index := if |entries| == 0 then 0 else |entries| - 1;
      var moved := StepPhysical(true);
      eof, bof := true, false;
      landed := false;
    }

    /** A descent to the outermost entry on one side. */
    method Descend(first: bool) returns (landed: bool)
      requires Valid()
      modifies this`placed, this`index, this`eof, this`bof
      ensures Valid() && placed
      ensures landed <==> entries != []
      ensures if landed then At(if first then 0 else |entries| - 1) else eof && bof && index == 0
    {
      placed := true;
      if |entries| == 0 {
        eof, bof, index := true, true, 0;
        return false;
      }
      index, eof, bof := if first then 0 else |entries| - 1, false, false;
      landed := true;
    }

    /** Down to the last entry with a key at or below `k`. */
    method SeekLastAtOrBelow(k: nat) returns (landed: bool)
      requires Valid() && k <= limit
      modifies this`placed, this`index, this`eof, this`bof
      ensures Valid() && placed
      ensures landed <==> Below(entries, k + 1) > 0
      ensures landed ==> At(Below(entries, k + 1) - 1)
      ensures !landed ==> !OnKey()
    {
      BelowSplits(entries, k + 1);
      if k == limit {
        AheadAll(entries, Entry(k + 1, 0));
        landed := Descend(false);
        return;
      }
      var above := SeekFirstAtOrAbove(k + 1);
      if !above {
        landed := Descend(false);
        return;
      }
      landed := StepPhysical(false);
      if !landed {
        bof, eof := true, false;
      }
    }

    predicate Searchable(s: Search) {
      s.Keys? ==> s.lo <= s.hi <= limit
    }

    /** In the tag's own order, a key comes before what is sought, or after it. */
    ghost predicate KeyBefore(k: nat, s: Search) {
      s.Keys? && if descending then s.hi < k else k < s.lo
    }

    ghost predicate KeyAfter(k: nat, s: Search) {
      s.Keys? && if descending then k < s.lo else s.hi < k
    }

    /** The key that nothing lies above, on a descending tag: a search for it reports the end at once. */
    ghost predicate Topmost(s: Search) {
      descending && s.Keys? && s.hi == limit
    }

    /** The entry a search ends at, or an index outside the tag. */
    ghost function Sought(s: Search): int {
      if s.Whole? then if descending then |entries| - 1 else 0
      else if Topmost(s) then -1
      else if descending then Below(entries, s.hi + 1) - 1
      else Below(entries, s.lo)
    }

    ghost function SoughtBack(s: Search): int {
      if s.Whole? then if descending then 0 else |entries| - 1
      else if descending then Below(entries, s.lo)
      else Below(entries, s.hi + 1) - 1
    }

    /** The first entry, in the tag's own order, that is not before what is sought. */
    method Seek(s: Search) returns (r: Outcome)
      requires Valid() && Searchable(s)
      modifies this`placed, this`index, this`eof, this`bof
      ensures Valid()
      ensures var i := Sought(s);
              if 0 <= i < |entries| then At(i) && r == if s.Matches(entries[i].key) then Found else After
              else r == AtEof && !OnKey()
    {
      if s.Whole? {
        var top := Descend(!descending);
        return if top then Found else AtEof;
      }
      if descending && s.hi == limit {
        eof, bof := true, false;
        return AtEof;
      }
      var landed;
      if descending {
        landed := SeekLastAtOrBelow(s.hi);
      } else {
        landed := SeekFirstAtOrAbove(s.lo);
      }
      if !landed {
        eof, bof := true, false;
        return AtEof;
      }
      r := if s.Matches(entries[index].key) then Found else After;
    }

    /** The last entry, in the tag's own order, that is not after what is sought. */
    method SeekAtOrBefore(s: Search) returns (r: Outcome)
      requires Valid() && Searchable(s)
      modifies this`placed, this`index, this`eof, this`bof
      ensures Valid()
      ensures var i := SoughtBack(s);
              if 0 <= i < |entries| then At(i) && r == if s.Matches(entries[i].key) then Found else Before
              else r == AtBof && !OnKey()
    {
      if s.Whole? {
        var bottom := Descend(descending);
        return if bottom then Found else AtBof;
      }
      var landed;
      if descending {
        landed := SeekFirstAtOrAbove(s.lo);
      } else {
        landed := SeekLastAtOrBelow(s.hi);
      }
      if !landed {
        bof, eof := true, false;
        return AtBof;
      }
      r := if s.Matches(entries[index].key) then Found else Before;
    }

    /** The next entry that still matches, or the one before; from an entry that does not match, a new search. */
    method SeekAdjacent(s: Search, forwards: bool) returns (r: Outcome)
      requires Valid() && Searchable(s)
      modifies this`placed, this`index, this`eof, this`bof
      ensures Valid() && (r in {Found, After} ==> OnKey())
      ensures r == Found <==> var i := old(Adjacent(s, forwards)); 0 <= i < |entries| && s.Matches(entries[i].key)
      ensures r == Found ==> At(old(Adjacent(s, forwards)))
    {
      if !OnKey() || !s.Matches(entries[index].key) {
        if forwards {
          r := Seek(s);
          return;
        }
        r := SeekAtOrBefore(s);
        return if r == Found then Found else NoEntry;
      }
      var moved := StepPhysical(forwards == !descending);
      if !moved {
        return NoEntry;
      }
      r := if s.Matches(entries[index].key) then Found else NoEntry;
    }

    /** The entry such a step looks at. */
    ghost function Adjacent(s: Search, forwards: bool): int
      reads this
      requires Valid()
    {
      if OnKey() && s.Matches(entries[index].key) then Target(index, if forwards then 1 else -1)
      else if forwards then Sought(s)
      else SoughtBack(s)
    }

    method ForgetSearch()
      modifies this`searching
      ensures !searching
    {
      searching := false;
    }

    method SearchFor(s: Search)
      requires Valid() && Searchable(s)
      modifies this`searching, this`active
      ensures Valid() && searching && active == s
    {
      searching, active := true, s;
    }

    /** The cursor is where a new one is: nowhere. */
    method ForgetBlocks()
      requires Valid()
      modifies this`placed, this`index, this`eof, this`bof, this`searching
      ensures Valid() && !OnKey() && !searching
    {
      placed, index, eof, bof, searching := false, 0, true, true, false;
    }

    /** Where a walk of `count` entries in the tag's own order ends, if the tag is long enough. */
    function Target(i: int, count: int): int {
      if descending then i - count else i + count
    }

    /** Moves by a number of entries in the tag's own order; answers how many there were. */
    method Skip(count: int) returns (moved: int)
      requires Valid() && OnKey()
      modifies this`index, this`eof, this`bof
      ensures Valid() && placed
      ensures moved == count <==> 0 <= Target(old(index), count) < |entries|
      ensures moved == count ==> At(Target(old(index), count))
      ensures moved != count ==> !OnKey()
    {
      moved := 0;
      var n := if count < 0 then -count else count;
      while moved < n
        invariant 0 <= moved <= n && Valid() && placed
        invariant At(Target(old(index), if count < 0 then -moved else moved))
      {
        var up := if count > 0 then !descending else descending;
        var step := StepPhysical(up);
        if !step {
          moved := if count < 0 then -moved else moved;
          return;
        }
        moved := moved + 1;
      }
      moved := if count < 0 then -moved else moved;
    }

    /** The entry with this key and this record. */
    method SeekExact(k: nat, rec: nat) returns (r: Outcome)
      requires Valid() && k <= limit
      modifies this`placed, this`index, this`eof, this`bof
      ensures Valid()
      ensures r == Found <==> Entry(k, rec) in entries && !(descending && k == limit)
      ensures r == Found ==> OnKey() && entries[index] == Entry(k, rec)
    {
      BelowSplits(entries, k);
      BelowSplits(entries, k + 1);
      r := Seek(Keys(k, k));
      while r == Found
        invariant Valid()
        invariant r == Found ==> OnKey() && entries[index].key == k
        invariant r in {Found, After, AtEof}
        invariant !(descending && k == limit) && Entry(k, rec) in entries ==>
                    && r == Found
                    && if descending then !Less(entries[index], Entry(k, rec))
                       else !Less(Entry(k, rec), entries[index])
        decreases r == Found, if descending then index else |entries| - index
      {
        var entry := entries[index];
        if entry.rec == rec {
          return Found;
        }
        var passedIt := if descending then entry.rec < rec else entry.rec > rec;
        if passedIt {
          return After;
        }
        var moved := StepPhysical(!descending);
        if !moved {
          return AtEof;
        }
        r := if entries[index].key == k then Found else After;
      }
    }

    /** The record of the entry the cursor is on, or of the first one in the direction of travel whose
        record the table has. */
    method Land(moved: bool, forwards: bool, count: nat) returns (r: Option<nat>)
      requires Valid()
      modifies this`index, this`eof, this`bof
      ensures Valid() && placed == old(placed)
      ensures !(moved && old(OnKey())) ==> r == None && OnKey() == old(OnKey())
      ensures moved && old(OnKey()) ==>
                var j := Named(entries, old(index), forwards == !descending, count);
                && (j.Some? ==> At(j.value) && r == Some(entries[j.value].rec))
                && (j.None? ==> !OnKey() && r == None)
    {
      if !moved || !OnKey() {
        return None;
      }
      var up := forwards == !descending;
      while true
        invariant Valid() && OnKey()
        invariant Named(entries, old(index), up, count) == Named(entries, index, up, count)
        decreases if up then |entries| - index else index
      {
        var named := entries[index].rec;
        if 1 <= named <= count {
          return Some(named);
        }
        ghost var i := index;
        var step := Skip(if forwards then 1 else -1);
        if step != if forwards then 1 else -1 {
          return None;
        }
      }
    }

    /** Where a walk that is headed for the entry at `t` lands. */
    ghost function WalkTo(t: int, forwards: bool, recordCount: nat): Landing {
      var first := if descending then |entries| - 1 else 0;
      if 0 <= t < |entries| then
        var j := Named(entries, t, forwards == !descending, recordCount);
        if j.Some? then Moved(entries[j.value].rec) else Nowhere
      else if !forwards then
        var j := Named(entries, first, !descending, recordCount);
        if j.Some? then Stopped(entries[j.value].rec) else Nowhere
      else AtEnd
    }

    /** Where a walk from entry `i` lands. */
    ghost function Walk(i: int, count: int, recordCount: nat): Landing {
      WalkTo(Target(i, count), count >= 0, recordCount)
    }

    /** The entry that is `n` after, or before, the place where an entry that is not listed would be. */
    ghost function PlaceTarget(e: Entry, n: int): int {
      var b := Ahead(entries, e);
      if descending then if n > 0 then b - n else b - n - 1
      else if n > 0 then b + n - 1 else b + n
    }

    /** Where a walk of `n` entries from that place lands. */
    ghost function WalkFromPlace(e: Entry, n: int, recordCount: nat): Landing {
      WalkTo(PlaceTarget(e, n), n > 0, recordCount)
    }

    /** Moves by a number of entries in the tag's own order and names the record there. */
    method Step(count: int, recordCount: nat) returns (r: Landing)
      requires Valid() && OnKey()
      modifies this`placed, this`index, this`eof, this`bof
      ensures Valid() && r == Walk(old(index), count, recordCount)
      ensures r.Moved? ==> At(Named(entries, Target(old(index), count), (count >= 0) == !descending, recordCount).value)
      ensures r.Moved? || r.Stopped? ==> OnKey() && entries[index].rec == r.rec && InTable(entries[index], recordCount)
    {
      var moved := Skip(count);
      if moved == count {
        var landed := Land(true, count >= 0, recordCount);
        return if landed.Some? then Moved(landed.value) else Nowhere;
      }
      if count < 0 {
        var top := Descend(!descending);
        var landed := Land(top, true, recordCount);
        if landed.Some? {
          return Stopped(landed.value);
        }
      }
      r := if count < 0 then Nowhere else AtEnd;
    }

    /** The first or the last record in the tag's own order. */
    method Outermost(first: bool, count: nat) returns (r: Option<nat>)
      requires Valid()
      modifies this`placed, this`index, this`eof, this`bof
      ensures Valid()
      ensures var j := Named(entries, if first == !descending then 0 else |entries| - 1, first == !descending, count);
              && (j.Some? ==> At(j.value) && r == Some(entries[j.value].rec))
              && (j.None? ==> r == None)
    {
      var landed := Descend(first == !descending);
      r := Land(landed, first, count);
    }

    /** The cursor is on an entry of the record. */
    predicate OnRecord(rec: nat)
      reads this
      requires Valid()
    {
      OnKey() && entries[index].rec == rec
    }

    /** Whether a search finds the entry of the record with this key. */
    ghost predicate Finds(k: nat, rec: nat) {
      Entry(k, rec) in entries && !(descending && k == limit)
    }

    /** Where the cursor is put for a record: on its entry, or near where it would be. */
    ghost function Place(rec: nat, row: Row): Start
      reads this
      requires Valid()
    {
      if OnRecord(rec) then Start(index, atNearest)
      else if Finds(keyOf(row), rec) then Start(IndexOf(entries, Entry(keyOf(row), rec)), false)
      else if Below(entries, keyOf(row)) < |entries| then Start(Below(entries, keyOf(row)), true)
      else Beyond
    }

    /** Puts the cursor on the entry of the record the table is on, or near where it would be. */
    method Synchronize(rec: nat, row: Row) returns (ok: bool)
      requires Valid() && keyOf(row) <= limit
      modifies this
      ensures Valid()
      ensures var start := old(Place(rec, row));
              if start.Start? then ok && At(start.at) && atNearest == start.near else !ok && atNearest
      ensures active == old(active) && searching == (old(OnRecord(rec)) && old(searching))
    {
      if OnKey() && entries[index].rec == rec {
        return true;
      }
      var k := keyOf(row);
      var outcome := SeekExact(k, rec);
      var exact := outcome == Found;
      if exact { OneIndex(entries, index); }
      atNearest := !exact;
      if !exact {
        var near := SeekFirstAtOrAbove(k);
        if !near {
          searching := false;
          return false;
        }
      }
      searching := false;
      ok := true;
    }
  }

  /** Takes one off a step that landing near an absent record has already covered. */
  function Adjusted(count: int, descending: bool, atNearest: bool): int {
    if !atNearest then count
    else if descending then if count < 0 then count + 1 else count
    else if count > 0 then count - 1 else count
  }

  // ----- what a search finds -----

  /** A search ends at the first entry, in the tag's own order, that is not before what is sought, unless it
      is sought at the top of a descending tag; backwards, at the last one that is not after it. */
  lemma {:induction false} SoughtIsFirst<Row>(c: TagCursor<Row>, s: Search, j: nat)
    requires c.Valid() && c.Searchable(s) && j < |c.entries|
    ensures !c.Topmost(s) ==>
              (c.KeyBefore(c.entries[j].key, s) <==> if c.descending then c.Sought(s) < j else j < c.Sought(s))
    ensures c.KeyAfter(c.entries[j].key, s) <==> if c.descending then j < c.SoughtBack(s) else c.SoughtBack(s) < j
    ensures !c.Topmost(s) ==> if c.descending then -1 <= c.Sought(s) < |c.entries| else 0 <= c.Sought(s) <= |c.entries|
    ensures if c.descending then 0 <= c.SoughtBack(s) <= |c.entries| else -1 <= c.SoughtBack(s) < |c.entries|
  {
    if s.Keys? {
      BelowSplits(c.entries, s.lo);
      BelowSplits(c.entries, s.hi + 1);
    }
  }

  /** The greatest possible key of a descending tag is listed and not found. */
  method GreatestKeyMissed() returns (c: TagCursor<bool>, r: Outcome)
    ensures c.entries == [Entry(9, 1)] && c.descending && c.limit == 9
    ensures r != Found
  {
    c := new TagCursor([Entry(9, 1)], true, 9, row => 9);
    r := c.SeekExact(9, 1);
  }

  // ----- stepping from a record the tag does not list -----

  /** The entries in the tag's own order. */
  function InOrder(es: seq<Entry>, descending: bool): (r: seq<Entry>)
    ensures |r| == |es|
    ensures forall i :: 0 <= i < |es| ==> r[i] == if descending then es[|es| - 1 - i] else es[i]
  {
    if !descending || es == [] then es else InOrder(es[1..], true) + [es[0]]
  }

  // ----- where a walk lands, read off the list of the entries in the tag's own order -----

  /** The record of the first entry of the list that names one of the table. */
  ghost function FirstOf(list: seq<Entry>, count: nat): Option<nat> {
    if list == [] then None
    else if InTable(list[0], count) then Some(list[0].rec)
    else FirstOf(list[1..], count)
  }

  /** And of the last one. */
  ghost function LastOf(list: seq<Entry>, count: nat): Option<nat> {
    if list == [] then None
    else if InTable(list[|list| - 1], count) then Some(list[|list| - 1].rec)
    else LastOf(list[..|list| - 1], count)
  }

  lemma {:induction false} FirstAt(list: seq<Entry>, i: nat, count: nat)
    requires i <= |list| && forall j :: 0 <= j < i ==> !InTable(list[j], count)
    requires i < |list| ==> InTable(list[i], count)
    ensures FirstOf(list, count) == if i < |list| then Some(list[i].rec) else None
  {
    if i > 0 { FirstAt(list[1..], i - 1, count); }
  }

  lemma {:induction false} LastAt(list: seq<Entry>, i: int, count: nat)
    requires -1 <= i < |list| && forall j :: i < j < |list| ==> !InTable(list[j], count)
    requires i >= 0 ==> InTable(list[i], count)
    ensures LastOf(list, count) == if i >= 0 then Some(list[i].rec) else None
    decreases |list|
  {
    if i < |list| - 1 { LastAt(list[..|list| - 1], i, count); }
  }

  /** The place in the tag's own order of the entry at `i`; and the entry that has the place `i` there. */
  function Placed(es: seq<Entry>, descending: bool, i: int): int {
    if descending then |es| - 1 - i else i
  }

  /** The record met first from the place `p` of the order on, forwards or backwards. */
  ghost function Met(order: seq<Entry>, p: nat, forwards: bool, count: nat): Option<nat>
    requires p < |order|
  {
    if forwards then FirstOf(order[p..], count) else LastOf(order[..p + 1], count)
  }

  /** The search from an entry for one that names a record meets that record. */
  lemma {:induction false} NamedIsMet(es: seq<Entry>, t: nat, descending: bool, forwards: bool, count: nat)
    requires t < |es|
    ensures var j := Named(es, t, forwards == !descending, count);
            Met(InOrder(es, descending), Placed(es, descending, t), forwards, count)
            == if j.Some? then Some(es[j.value].rec) else None
  {
    if forwards {
      NamedIsMetAhead(es, t, descending, count);
    } else {
      NamedIsMetBehind(es, t, descending, count);
    }
  }

  lemma {:induction false} NamedIsMetAhead(es: seq<Entry>, t: nat, descending: bool, count: nat)
    requires t < |es|
    ensures var j := Named(es, t, !descending, count);
            FirstOf(InOrder(es, descending)[Placed(es, descending, t)..], count)
            == if j.Some? then Some(es[j.value].rec) else None
  {
    hide Named, FirstOf;
    var rest, p := InOrder(es, descending)[Placed(es, descending, t)..], Placed(es, descending, t);
    var j := Named(es, t, !descending, count);
    var i := if j.Some? then Placed(es, descending, j.value) - p else |rest|;
    forall k | 0 <= k < i ensures !InTable(rest[k], count) {
      assert rest[k] == es[Placed(es, descending, p + k)];
    }
    FirstAt(rest, i, count);
  }

  lemma {:induction false} NamedIsMetBehind(es: seq<Entry>, t: nat, descending: bool, count: nat)
    requires t < |es|
    ensures var j := Named(es, t, descending, count);
            LastOf(InOrder(es, descending)[..Placed(es, descending, t) + 1], count)
            == if j.Some? then Some(es[j.value].rec) else None
  {
    hide Named, LastOf;
    var rest := InOrder(es, descending)[..Placed(es, descending, t) + 1];
    var j := Named(es, t, descending, count);
    var i := if j.Some? then Placed(es, descending, j.value) else -1;
    forall k | i < k < |rest| ensures !InTable(rest[k], count) {
      assert rest[k] == es[Placed(es, descending, k)];
    }
    LastAt(rest, i, count);
  }

  /** Where a walk headed for the place `p` of the order lands. Forwards it lands on the first record from there on;
      backwards on the last one up to there; past the end it is at the end. Off the front it stops at the first record
      of the whole order, and it is nowhere where no entry it may look at names a record of the table. */
  ghost function LandsBy(order: seq<Entry>, p: int, forwards: bool, count: nat): Landing {
    if 0 <= p < |order| then
      var met := Met(order, p, forwards, count);
      if met.Some? then Moved(met.value) else Nowhere
    else if forwards then AtEnd
    else
      var first := FirstOf(order, count);
      if first.Some? then Stopped(first.value) else Nowhere
  }

  lemma {:induction false} WalkToLands<Row>(c: TagCursor<Row>, t: int, forwards: bool, count: nat)
    ensures c.WalkTo(t, forwards, count)
            == LandsBy(InOrder(c.entries, c.descending), Placed(c.entries, c.descending, t), forwards, count)
  {
    hide Named, FirstOf, LastOf;
    var es, order := c.entries, InOrder(c.entries, c.descending);
    if Inside(t, es) {
      NamedIsMet(es, t, c.descending, forwards, count);
    } else if !forwards {
      WholeOrder(es, c.descending, count);
    }
  }

  /** The first and the last record of the order are those the two ends of the tag lead to. */
  lemma {:induction false} WholeOrder(es: seq<Entry>, descending: bool, count: nat)
    ensures var j := Named(es, if descending then |es| - 1 else 0, !descending, count);
            FirstOf(InOrder(es, descending), count) == if j.Some? then Some(es[j.value].rec) else None
    ensures var j := Named(es, if descending then 0 else |es| - 1, descending, count);
            LastOf(InOrder(es, descending), count) == if j.Some? then Some(es[j.value].rec) else None
  {
    hide Named;
    var order := InOrder(es, descending);
    if es != [] {
      NamedIsMet(es, if descending then |es| - 1 else 0, descending, true, count);
      NamedIsMet(es, if descending then 0 else |es| - 1, descending, false, count);
      assert order[0..] == order && order[..|order|] == order;
    }
  }

  /** A walk of `n` from the entry at `i`, which has the place `q` in the order, lands by the place `q + n`. */
  lemma {:induction false} WalkLands<Row>(c: TagCursor<Row>, i: nat, n: int, count: nat)
    requires i < |c.entries|
    ensures var order, q := InOrder(c.entries, c.descending), Placed(c.entries, c.descending, i);
            && 0 <= q < |order| && order[q] == c.entries[i]
            && c.Walk(i, n, count) == LandsBy(order, q + n, n >= 0, count)
  {
    WalkToLands(c, c.Target(i, n), n >= 0, count);
  }

  /** One entry comes before another in the tag's own order. */
  predicate Comes(a: Entry, b: Entry, descending: bool) {
    if descending then Less(b, a) else Less(a, b)
  }

  /** The entry a walk of `n` from an entry's place is headed for: in the tag's own order, the entries that
      come before it number `q`, and the `n`-th after it, or before it, is at `q + n - 1`, or `q + n`. */
  lemma {:induction false} PlaceIsBetween<Row>(c: TagCursor<Row>, e: Entry, n: int)
    requires c.Valid() && e !in c.entries && n != 0
    ensures var order := InOrder(c.entries, c.descending);
            var q := if c.descending then |order| - Ahead(c.entries, e) else Ahead(c.entries, e);
            var there, t := if n > 0 then q + n - 1 else q + n, c.PlaceTarget(e, n);
            && (forall i :: 0 <= i < |order| ==> (i < q <==> Comes(order[i], e, c.descending)))
            && (0 <= t < |order| <==> 0 <= there < |order|)
            && (0 <= t < |order| ==> c.entries[t] == order[there])
  {
    AheadSplits(c.entries, e);
    var order := InOrder(c.entries, c.descending);
    var q := if c.descending then |order| - Ahead(c.entries, e) else Ahead(c.entries, e);
    forall i | 0 <= i < |order| ensures i < q <==> Comes(order[i], e, c.descending) {
      var j := if c.descending then |order| - 1 - i else i;
      assert order[i] == c.entries[j] && c.entries[j] in c.entries;
    }
  }

  /** A walk of `n` from the place of an entry that is not listed, which `q` entries come before, lands by the place
      of the `n`-th entry after or before it. */
  lemma {:induction false} PlaceLands<Row>(c: TagCursor<Row>, e: Entry, n: int, count: nat)
    requires c.Valid() && e !in c.entries && n != 0
    ensures var order := InOrder(c.entries, c.descending);
            var q := if c.descending then |order| - Ahead(c.entries, e) else Ahead(c.entries, e);
            && (forall i :: 0 <= i < |order| ==> (i < q <==> Comes(order[i], e, c.descending)))
            && c.WalkFromPlace(e, n, count) == LandsBy(order, if n > 0 then q + n - 1 else q + n, n > 0, count)
  {
    hide TagCursor.WalkTo, LandsBy;
    PlaceIsBetween(c, e, n);
    WalkToLands(c, c.PlaceTarget(e, n), n > 0, count);
  }

  /** The cursor is put on an entry that names the record, unless the search for it finds none; then it is put at the
      first entry whose key is not below the record's, with the note, and nowhere only if every key is. */
  lemma {:induction false} PlaceNames<Row>(c: TagCursor<Row>, rec: nat, row: Row)
    requires c.Valid()
    ensures var start, k := c.Place(rec, row), c.keyOf(row);
            && (start.Start? ==> Inside(start.at, c.entries))
            && (c.Finds(k, rec) ==> start.Start? && c.entries[start.at].rec == rec)
            && (start.Start? && c.entries[start.at].rec != rec ==>
                  && start.near && c.entries[start.at].key >= k
                  && forall i :: 0 <= i < start.at ==> c.entries[i].key < k)
            && (start.Beyond? ==> forall i :: 0 <= i < |c.entries| ==> c.entries[i].key < k)
  {
    BelowSplits(c.entries, c.keyOf(row));
  }

  /** No entry with the same key has a lower record number. */
  ghost predicate NoLower(es: seq<Entry>, e: Entry) {
    forall i :: 0 <= i < |es| && es[i].key == e.key ==> e.rec <= es[i].rec
  }

  lemma {:induction false} NoLowerIs(es: seq<Entry>, e: Entry)
    requires Sorted(es)
    ensures Below(es, e.key) <= Ahead(es, e)
    ensures NoLower(es, e) <==> Below(es, e.key) == Ahead(es, e)
  {
    AheadSplits(es, e);
    BelowSplits(es, e.key);
    var a, b := Ahead(es, e), Below(es, e.key);
    assert forall j :: 0 <= j < b ==> Less(es[j], e);
    assert a < |es| ==> !Less(es[a], e);
    if b < a {
      assert Less(es[b], e) && es[b].key >= e.key;
    }
  }

  /** From the nearest entry, the step is headed for the `n`-th entry after or before the record's place, for
      every `n`, ascending and descending, if and only if no entry with the record's key has a lower record. */
  lemma {:induction false} NearestIsRight<Row>(c: TagCursor<Row>, e: Entry, n: int)
    requires c.Valid() && n != 0
    ensures c.Target(Below(c.entries, e.key), Adjusted(n, c.descending, true)) == c.PlaceTarget(e, n)
            <==> NoLower(c.entries, e)
  {
    NoLowerIs(c.entries, e);
  }

  /** No two entries name the same record. */
  ghost predicate Unrepeated(es: seq<Entry>) {
    forall i, j :: 0 <= i < j < |es| ==> es[i].rec != es[j].rec
  }

  ghost predicate NoneInTable(es: seq<Entry>, count: nat) {
    forall i :: 0 <= i < |es| ==> !InTable(es[i], count)
  }

  /** The entry at `t` is one of the tag's. */
  predicate Inside(t: int, es: seq<Entry>) {
    0 <= t < |es|
  }

  /** Walks headed for `s` and for `t` meet the same entry, or both none; or they run off the tag. */
  ghost predicate Alike(es: seq<Entry>, s: int, t: int, up: bool, forwards: bool, count: nat) {
    if Inside(s, es) && Inside(t, es) then Named(es, s, up, count) == Named(es, t, up, count)
    else Inside(s, es) == Inside(t, es) || (!forwards && NoneInTable(es, count))
  }

  /** And then they land alike, and only then. */
  lemma {:induction false} SameLanding<Row>(c: TagCursor<Row>, s: int, t: int, forwards: bool, count: nat)
    requires Unrepeated(c.entries)
    ensures c.WalkTo(s, forwards, count) == c.WalkTo(t, forwards, count)
            <==> Alike(c.entries, s, t, forwards == !c.descending, forwards, count)
  {
  }

  /** The step lands where a walk from the record's place does if and only if no entry with the record's key has a
      lower record, or the entries the two are headed for differ and the walks land alike nevertheless. */
  lemma {:induction false} NearestLands<Row>(c: TagCursor<Row>, e: Entry, n: int, count: nat)
    requires c.Valid() && Unrepeated(c.entries) && n != 0 && !(c.descending && n == -1)
    ensures var at, left := Below(c.entries, e.key), Adjusted(n, c.descending, true);
            c.Walk(at, left, count) == c.WalkFromPlace(e, n, count)
            <==> NoLower(c.entries, e)
                 || Alike(c.entries, c.Target(at, left), c.PlaceTarget(e, n), (n > 0) == !c.descending, n > 0, count)
  {
    NearestIsRight(c, e, n);
    var left := Adjusted(n, c.descending, true);
    SameLanding(c, c.Target(Below(c.entries, e.key), left), c.PlaceTarget(e, n), n > 0, count);
  }

  /** The last step back on a descending tag is shortened to none, and a step of none counts as forwards: where
      the entry names no record of the table the search for another goes the wrong way. */
  lemma {:induction false} ZeroStepTurns<Row>(c: TagCursor<Row>, e: Entry, count: nat)
    requires c.Valid() && c.descending && Below(c.entries, e.key) < |c.entries| && Unrepeated(c.entries)
    ensures var at, t := Below(c.entries, e.key), c.PlaceTarget(e, -1);
            c.Walk(at, Adjusted(-1, true, true), count) == c.WalkFromPlace(e, -1, count)
            <==> || (NoLower(c.entries, e) && InTable(c.entries[at], count))
                 || (&& Named(c.entries, at, false, count).None?
                     && if Inside(t, c.entries) then Named(c.entries, t, true, count).None?
                        else NoneInTable(c.entries, count))
  {
    NoLowerIs(c.entries, e);
    var at, t := Below(c.entries, e.key), c.PlaceTarget(e, -1);
    var down := Named(c.entries, at, false, count);
    assert c.Walk(at, 0, count) == c.WalkTo(at, true, count);
    assert c.WalkFromPlace(e, -1, count) == c.WalkTo(t, false, count);
  }

  /** The record with the greatest possible key of a descending tag is listed and taken for one that is not:
      the step from it is right exactly when it goes forwards and no lower record has that key. */
  lemma {:induction false} TopmostSteps<Row>(c: TagCursor<Row>, e: Entry, n: int)
    requires c.Valid() && c.descending && e in c.entries && n != 0
    ensures c.Target(Below(c.entries, e.key), Adjusted(n, true, true)) == c.Target(IndexOf(c.entries, e), n)
            <==> n > 0 && NoLower(c.entries, e)
  {
    NoLowerIs(c.entries, e);
    AheadOf(c.entries, IndexOf(c.entries, e));
  }

  // ----- stepping from a record the tag lists -----

  /** A skip from a record's own entry lands where it should if and only if no earlier synchronization has left
      its note behind, or the skip goes the way the note does not shorten, or the entry that the shortened skip is
      headed for lies off the tag, or names no record and is passed over for the next one. */
  lemma {:induction false} StaleSkip<Row>(c: TagCursor<Row>, i: nat, n: int, near: bool, count: nat)
    requires c.Valid() && i < |c.entries| && InTable(c.entries[i], count) && Unrepeated(c.entries) && n != 0
    ensures var t := c.Target(i, Adjusted(n, c.descending, true));
            c.Walk(i, Adjusted(n, c.descending, near), count) == c.Walk(i, n, count)
            <==> !near || (n > 0) == c.descending || !Inside(t, c.entries)
                 || (!InTable(c.entries[t], count) && Inside(c.Target(i, n), c.entries))
  {
    var s, t := c.Target(i, Adjusted(n, c.descending, true)), c.Target(i, n);
    if near && (n > 0) != c.descending {
      if n == 1 || n == -1 {
        StaleStays(c, i, n, count);
      } else {
        SameLanding(c, s, t, n > 0, count);
      }
    }
  }

  /** A single step that the note shortens stays where it is. */
  lemma {:induction false} StaleStays<Row>(c: TagCursor<Row>, i: nat, n: int, count: nat)
    requires i < |c.entries| && InTable(c.entries[i], count) && (n == 1 || n == -1) && (n > 0) != c.descending
    ensures c.Walk(i, Adjusted(n, c.descending, true), count) == Moved(c.entries[i].rec)
  {
    assert Adjusted(n, c.descending, true) == 0;
  }
}
