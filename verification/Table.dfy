/** Moving through a table by record number and in the order of a tag.

    The position is a record number and two flags that are stored and not derived; the buffer holds
    whatever the position says is under the cursor, after any sequence of moves. */
module Tables {
  import opened Wrappers
  import opened Bytes
  import opened TagCursors

  type Row = seq<Raw>

  /** `Refused` stands for the exception the program throws. */
  datatype GoResult = Ok | NoRecord | Refused
  datatype SkipResult = SkipMoved | SkipEof | SkipBof | SkipRefused
  datatype SeekResult = SeekFound | SeekAfter | SeekBefore | SeekEof | SeekBof

  const INVALID := -1

  datatype Position = Position(number: int, eof: bool, bof: bool) {
    function MovedTo(n: nat): Position { Position(n, false, false) }

    /** An empty table is at both of its ends at once. */
    function PastEnd(count: nat): Position { Position(count + 1, true, count == 0 || bof) }

    function BeforeStart(eofBefore: bool): Position { Position(number, eofBefore, true) }

    function Nowhere(): Position { Position(INVALID, eof, bof) }
  }

  class Table {
    const rows: seq<Row>
    const blank: Row
    var buffer: Row
    var position: Position
    var selected: TagCursor?<Row>

    constructor (rows: seq<Row>, blank: Row)
      ensures Valid() && this.rows == rows && this.blank == blank && selected == null && position.number == INVALID
    {
      this.rows, this.blank, this.selected := rows, blank, null;
      this.position, this.buffer := Position(INVALID, false, false), blank;
    }

    /** What is under the cursor when it reports this record number. */
    function Under(number: int): Row {
      if 1 <= number <= |rows| then rows[number - 1] else blank
    }

    /** The buffer agrees with the cursor, whatever the flags say. */
    ghost predicate Valid()
      reads this
    {
      buffer == Under(position.number) && (position.number == INVALID || 1 <= position.number <= |rows| + 1)
    }

    /** A cursor over a tag of this table. */
    ghost predicate Usable(c: TagCursor<Row>)
      reads c
    {
      c.Valid() && forall n :: c.keyOf(Under(n)) <= c.limit
    }

    ghost predicate Ready()
      reads this, selected
    {
      Valid() && (selected != null ==> Usable(selected))
    }

    method Fetch(number: nat)
      requires 1 <= number <= |rows|
      modifies this`buffer, this`position
      ensures Valid() && position == Position(number, false, false)
    {
      buffer := rows[number - 1];
      position := position.MovedTo(number);
    }

    method MovePastEnd()
      modifies this`buffer, this`position
      ensures Valid() && position == old(position).PastEnd(|rows|)
    {
      position := position.PastEnd(|rows|);
      buffer := blank;
    }

    method NoRecordFound()
      modifies this`buffer, this`position
      ensures Valid() && position == old(position).Nowhere()
    {
      buffer := blank;
      position := position.Nowhere();
    }

    /** Reads the record an indexed move reached, or reports that it reached none. */
    method Reached(record: Option<nat>) returns (r: GoResult)
      requires record.Some? ==> 1 <= record.value <= |rows|
      modifies this`buffer, this`position
      ensures Valid()
      ensures if record.Some? then r == Ok && position == Position(record.value, false, false)
              else r == NoRecord && position == Position(|rows| + 1, true, true)
    {
      if record.None? {
        MovePastEnd();
        position := position.BeforeStart(true);
        return NoRecord;
      }
      Fetch(record.value);
      r := Ok;
    }

    ghost function Selected(): set<TagCursor<Row>>
      reads this`selected
    {
      if selected == null then {} else {selected}
    }

    /** A move that is not a seek ends the search of the selected tag. */
    method EndSearch()
      modifies Selected()`searching
      ensures selected != null ==> !selected.searching
    {
      if selected != null {
        selected.ForgetSearch();
      }
    }

    /** Selecting a tag does not move the cursor. */
    method SelectTag(tag: TagCursor?<Row>)
      requires Ready() && (tag != null ==> Usable(tag))
      modifies this`selected, Selected()`searching
      ensures selected == tag && Ready() && (old(selected) != null ==> !old(selected).searching)
    {
      EndSearch();
      selected := tag;
    }

    method Go(number: int) returns (r: GoResult)
      requires Valid()
      modifies this`buffer, this`position, Selected()`searching
      ensures Valid() && (selected != null ==> !selected.searching)
      ensures if number < 1 then r == Refused && position == old(position)
              else if number > |rows| then r == NoRecord && position == old(position).Nowhere()
              else r == Ok && position == Position(number, false, false)
    {
      EndSearch();
      if number < 1 {
        return Refused;
      }
      if number > |rows| {
        NoRecordFound();
        return NoRecord;
      }
      Fetch(number);
      r := Ok;
    }

    /** The record at one end of the tag's order that the table has. */
    ghost function EndOf(c: TagCursor<Row>, first: bool): Option<nat>
    {
      var up := first == !c.descending;
      var j := Named(c.entries, if up then 0 else |c.entries| - 1, up, |rows|);
      if j.Some? then Some(c.entries[j.value].rec) else None
    }

    /** The entry of the last record of the tag's order that the table has. */
    ghost function LastIndex(c: TagCursor<Row>): int {
      var j := Named(c.entries, if c.descending then 0 else |c.entries| - 1, c.descending, |rows|);
      if j.Some? then j.value else -1
    }

    method GoOutermost(c: TagCursor<Row>, first: bool) returns (r: GoResult)
      requires Valid() && Usable(c)
      modifies this`buffer, this`position, c
      ensures Valid() && Usable(c)
      ensures var end := EndOf(c, first);
              if end.Some? then
                && r == Ok && position == Position(end.value, false, false)
                && c.At(Named(c.entries, if first == !c.descending then 0 else |c.entries| - 1,
                              first == !c.descending, |rows|).value)
              else r == NoRecord && position == Position(|rows| + 1, true, true)
      ensures c.atNearest == old(c.atNearest) && c.searching == old(c.searching)
    {
      var record := c.Outermost(first, |rows|);
      r := Reached(record);
    }

    /** The first record, or the last: of the selected tag's order if there is one, else by number. */
    method Outermost(first: bool) returns (r: GoResult)
      requires Ready()
      modifies this`buffer, this`position, selected
      ensures Ready() && (selected != null ==> !selected.searching)
      ensures var end := if selected != null then EndOf(selected, first)
                         else if rows == [] then None else Some(if first then 1 else |rows|);
              if end.Some? then r == Ok && position == Position(end.value, false, false)
              else r == NoRecord && position.number == |rows| + 1 && position.eof
    {
      EndSearch();
      if selected != null {
        r := GoOutermost(selected, first);
        return;
      }
      if |rows| < 1 {
        MovePastEnd();
        return NoRecord;
      }
      Fetch(if first then 1 else |rows|);
      r := Ok;
    }

    /** What a skip answers, and where it leaves the cursor, once the tag has been walked. */
    ghost function Arrive(pos: Position, walk: Landing): (SkipResult, Position) {
      match walk
      case Moved(rec) => (SkipMoved, Position(rec, false, false))
      case Stopped(rec) => (SkipBof, Position(rec, pos.eof, true))
      case AtEnd => (SkipEof, pos.PastEnd(|rows|))
      case Nowhere => (SkipEof, Position(|rows| + 1, true, true))
    }

    ghost function TagSkip(pos: Position, c: TagCursor<Row>, start: Start, count: int): (SkipResult, Position) {
      if start == Beyond then (if count < 0 then SkipBof else SkipEof, pos.PastEnd(|rows|))
      else Arrive(pos, c.Walk(start.at, Adjusted(count, c.descending, start.near), |rows|))
    }

    /** What a skip headed for the place `p` of the tag's own order answers, and where it leaves the cursor. Off the
        front it is at the beginning, on the first record of the order, and no further from the end than before. */
    ghost function SkipBy(pos: Position, order: seq<Entry>, p: int, forwards: bool): (SkipResult, Position) {
      if 0 <= p < |order| then
        var met := Met(order, p, forwards, |rows|);
        if met.Some? then (SkipMoved, Position(met.value, false, false))
        else (SkipEof, Position(|rows| + 1, true, true))
      else if forwards then (SkipEof, Position(|rows| + 1, true, pos.bof || rows == []))
      else
        var first := FirstOf(order, |rows|);
        if first.Some? then (SkipBof, Position(first.value, pos.eof, true))
        else (SkipEof, Position(|rows| + 1, true, true))
    }

    lemma {:induction false} SkipLands(pos: Position, c: TagCursor<Row>, start: Start, count: int)
      requires start.Start? && Inside(start.at, c.entries)
      ensures var left := Adjusted(count, c.descending, start.near);
              TagSkip(pos, c, start, count) ==
              SkipBy(pos, InOrder(c.entries, c.descending), Placed(c.entries, c.descending, start.at) + left, left >= 0)
    {
      hide TagCursor.Walk, FirstOf, LastOf;
      WalkLands(c, start.at, Adjusted(count, c.descending, start.near), |rows|);
    }

    /** A skip that starts on an entry, or near one, goes along the order of the tag from that entry's place. */
    ghost predicate Along(pos: Position, c: TagCursor<Row>, start: Start, count: int, end: (SkipResult, Position)) {
      start.Start? ==>
        var left := Adjusted(count, c.descending, start.near);
        var p := Placed(c.entries, c.descending, start.at) + left;
        && Inside(start.at, c.entries)
        && end == SkipBy(pos, InOrder(c.entries, c.descending), p, left >= 0)
    }

    lemma {:induction false} SkipsAlong(pos: Position, c: TagCursor<Row>, rec: nat, row: Row, count: int)
      requires c.Valid()
      ensures var start := c.Place(rec, row); Along(pos, c, start, count, TagSkip(pos, c, start, count))
    {
      hide TagSkip, SkipBy;
      PlaceNames(c, rec, row);
      if c.Place(rec, row).Start? { SkipLands(pos, c, c.Place(rec, row), count); }
    }

    /** The records at the ends of the tag's order are the first and the last that the table has. */
    lemma {:induction false} EndsAre(c: TagCursor<Row>)
      ensures EndOf(c, true) == FirstOf(InOrder(c.entries, c.descending), |rows|)
      ensures EndOf(c, false) == LastOf(InOrder(c.entries, c.descending), |rows|)
      ensures EndOf(c, false).Some? ==>
                var order, last := InOrder(c.entries, c.descending), Placed(c.entries, c.descending, LastIndex(c));
                && 0 <= last < |order| && order[last].rec == EndOf(c, false).value
                && forall p :: last < p < |order| ==> !InTable(order[p], |rows|)
    {
      hide Named, FirstOf, LastOf;
      WholeOrder(c.entries, c.descending, |rows|);
      var order, last := InOrder(c.entries, c.descending), Placed(c.entries, c.descending, LastIndex(c));
      forall p | last < p < |order| && EndOf(c, false).Some? ensures !InTable(order[p], |rows|) {
        assert order[p] == c.entries[Placed(c.entries, c.descending, p)];
      }
    }

    /** Walks `count` entries from the entry of the current record, or from near where it would be. */
    method SkipFromRecord(c: TagCursor<Row>, count: int) returns (r: SkipResult)
      requires Valid() && Usable(c) && position.number >= 1
      modifies this`buffer, this`position, c
      ensures Valid() && Usable(c)
      ensures (r, position) == TagSkip(old(position), c, old(c.Place(position.number, buffer)), count)
      ensures c.searching == old(c.OnRecord(position.number) && c.searching)
    {
      hide TagCursor.Walk, Named;
      assert buffer == Under(position.number);
      var ok := c.Synchronize(position.number, buffer);
      if !ok {
        MovePastEnd();
        return if count < 0 then SkipBof else SkipEof;
      }
      var left := Adjusted(count, c.descending, c.atNearest);
      var eofBefore := position.eof;
      var landing := c.Step(left, |rows|);
      match landing
      case Moved(rec) =>
        Fetch(rec);
        r := SkipMoved;
      case Stopped(rec) =>
        Fetch(rec);
        position := position.BeforeStart(eofBefore);
        r := SkipBof;
      case AtEnd =>
        MovePastEnd();
        r := SkipEof;
      case Nowhere =>
        MovePastEnd();
        position := position.BeforeStart(true);
        r := SkipEof;
    }

    /** A skip in the selected tag's order; past the end, a backward one comes in through the last entry. */
    method SkipInTagOrder(c: TagCursor<Row>, count: int) returns (r: SkipResult)
      requires Valid() && Usable(c) && position.number >= 1
      modifies this`buffer, this`position, c
      ensures Valid() && Usable(c)
      ensures old(position.eof) && count >= 0 ==> r == SkipEof && position == old(position).PastEnd(|rows|)
      ensures old(position.eof) && count < 0 && EndOf(c, false).None? ==>
                r == SkipBof && position == Position(|rows| + 1, true, true)
      ensures old(position.eof) && count == -1 && EndOf(c, false).Some? ==>
                r == SkipMoved && position == Position(EndOf(c, false).value, false, false)
      ensures old(position.eof) && count < -1 && EndOf(c, false).Some? ==>
                (r, position) == TagSkip(Position(EndOf(c, false).value, false, false), c,
                                         Start(LastIndex(c), old(c.atNearest)), count + 1)
      ensures !old(position.eof) && count == 0 ==> r == SkipMoved && position == old(position) && buffer == old(buffer)
      ensures !old(position.eof) && count != 0 ==>
                (r, position) == TagSkip(old(position), c, old(c.Place(position.number, buffer)), count)
      ensures !old(position.eof) && count != 0 ==>
                Along(old(position), c, old(c.Place(position.number, buffer)), count, (r, position))
      ensures !old(position.eof) ==> c.searching == old((count == 0 || c.OnRecord(position.number)) && c.searching)
    {
      hide Along;
      var n := count;
      if position.eof {
        if n >= 0 {
          MovePastEnd();
          return SkipEof;
        }
        c.ForgetSearch();
        var bottom := GoOutermost(c, false);
        if bottom != Ok {
          return SkipBof;
        }
        n := n + 1;
      }
      if n == 0 {
        return SkipMoved;
      }
      SkipsAlong(position, c, position.number, buffer, n);
      r := SkipFromRecord(c, n);
    }

    /** A skip by record number, or in the order of the selected tag. */
    method Skip(count: int) returns (r: SkipResult)
      requires Ready()
      modifies this`buffer, this`position, selected
      ensures Ready()
      ensures old(position.number) < 1 ==> r == SkipRefused && position == old(position)
      ensures old(position.number) >= 1 && selected == null ==>
                var target := old(position.number) + count;
                if 1 <= target <= |rows| then r == SkipMoved && position == Position(target, false, false)
                else if rows == [] || target > |rows| then
                  && r == (if count < 0 then SkipBof else SkipEof)
                  && position.number == |rows| + 1 && position.eof && position.bof == (rows == [])
                else r == SkipBof && position == Position(1, old(position.eof), true)
      ensures old(position.number) >= 1 && selected != null && count != 0 && !old(position.eof) ==>
                (r, position) == TagSkip(old(position).(bof := false), selected,
                                         old(selected.Place(position.number, buffer)), count)
      ensures old(position.number) >= 1 && selected != null && count == 0 && !old(position.eof) ==>
                r == SkipMoved && position == old(position).(bof := false) && buffer == old(buffer)
      ensures old(position.number) >= 1 && selected != null && old(position.eof) ==>
                var end := EndOf(selected, false);
                if count >= 0 then r == SkipEof && position == old(position).(bof := false).PastEnd(|rows|)
                else if end.None? then r == SkipBof && position == Position(|rows| + 1, true, true)
                else if count == -1 then r == SkipMoved && position == Position(end.value, false, false)
                else (r, position) == TagSkip(Position(end.value, false, false), selected,
                                              Start(LastIndex(selected), old(selected.atNearest)), count + 1)
    {
      if position.number < 1 {
        return SkipRefused;
      }
      position := position.(bof := false);
      if selected != null {
        r := SkipInTagOrder(selected, count);
        return;
      }
      var target := position.number + count;
      if 1 <= target <= |rows| {
        Fetch(target);
        return SkipMoved;
      }
      if |rows| < 1 || target > |rows| {
        MovePastEnd();
        return if count < 0 then SkipBof else SkipEof;
      }
      var eofBefore := position.eof;
      Fetch(1);
      position := position.BeforeStart(eofBefore);
      r := SkipBof;
    }

    /** What one step in a tag's order answers, and where it leaves the cursor, once the tag has been walked. */
    ghost function Landed(walk: Landing): (GoResult, Position) {
      if walk.Moved? then (Ok, Position(walk.rec, false, false)) else (NoRecord, Position(|rows| + 1, true, true))
    }

    ghost function TagStep(c: TagCursor<Row>, start: Start, count: int): (GoResult, Position) {
      if start == Beyond then Landed(Nowhere)
      else Landed(c.Walk(start.at, Adjusted(count, c.descending, start.near), |rows|))
    }

    /** One step leads to the record met first from the place it is headed for on, if the tag has that place. */
    lemma {:induction false} StepLands(c: TagCursor<Row>, start: Start, count: int)
      requires start.Start? && Inside(start.at, c.entries)
      ensures var order, left := InOrder(c.entries, c.descending), Adjusted(count, c.descending, start.near);
              var p := Placed(c.entries, c.descending, start.at) + left;
              var met := if 0 <= p < |order| then Met(order, p, left >= 0, |rows|) else None;
              TagStep(c, start, count) ==
              if met.Some? then (Ok, Position(met.value, false, false))
              else (NoRecord, Position(|rows| + 1, true, true))
    {
      hide TagCursor.Walk, FirstOf, LastOf;
      WalkLands(c, start.at, Adjusted(count, c.descending, start.near), |rows|);
    }

    /** The entry a step from the current record is headed for. */
    ghost function Headed(c: TagCursor<Row>, start: Start, count: int): Option<nat>
      requires start.Start?
    {
      var left := Adjusted(count, c.descending, start.near);
      var t := c.Target(start.at, left);
      if Inside(t, c.entries) then Named(c.entries, t, (left >= 0) == !c.descending, |rows|) else None
    }

    lemma {:induction false} MovedIsHeaded(c: TagCursor<Row>, start: Start, count: int)
      requires start.Start? && (count == 1 || count == -1) && Inside(start.at, c.entries)
      ensures c.Walk(start.at, Adjusted(count, c.descending, start.near), |rows|).Moved?
              <==> Headed(c, start, count).Some?
    {
    }

    /** One step in a tag's order, from wherever the record cursor is. */
    method StepIndexed(c: TagCursor<Row>, count: int) returns (r: GoResult)
      requires Valid() && Usable(c) && (count == 1 || count == -1)
      modifies this`buffer, this`position, c
      ensures Valid() && Usable(c)
      ensures old(position.number) < 1 ==> r == Refused && position == old(position)
      ensures old(position.number) >= 1 && !old(position.eof) ==>
                var start := old(c.Place(position.number, buffer));
                && (r, position) == TagStep(c, start, count)
                && (start.Start? ==> c.atNearest == start.near)
                && (r == Ok ==> start.Start? && Headed(c, start, count).Some? && c.At(Headed(c, start, count).value))
                && (r == Ok ==> position == Position(c.entries[Headed(c, start, count).value].rec, false, false))
                && (start.Start? && Headed(c, start, count).Some? ==> r == Ok)
                && c.searching == old(c.OnRecord(position.number) && c.searching)
      ensures old(position.number) >= 1 && old(position.eof) ==>
                && (r == Ok <==> count < 0 && EndOf(c, false).Some?) && r != Refused
                && (r == Ok ==> position == Position(EndOf(c, false).value, false, false) && c.At(LastIndex(c)))
                && (r == NoRecord ==> position == Position(|rows| + 1, true, true))
                && c.atNearest == old(c.atNearest)
    {
      hide TagCursor.Walk, Named;
      if position.number < 1 {
        return Refused;
      }
      if position.eof {
        if count < 0 {
          r := GoOutermost(c, false);
        } else {
          r := Reached(None);
        }
        return;
      }
      assert buffer == Under(position.number);
      var ok := c.Synchronize(position.number, buffer);
      if !ok {
        r := Reached(None);
        return;
      }
      MovedIsHeaded(c, Start(c.index, c.atNearest), count);
      var landing := c.Step(Adjusted(count, c.descending, c.atNearest), |rows|);
      r := Reached(if landing.Moved? then Some(landing.rec) else None);
    }

    /** The record a search lands on when it ends at the entry `i`: that of the first entry from there on, in
        the direction of the search, whose record the table has. */
    ghost function LandsOn(c: TagCursor<Row>, i: int, forwards: bool): Option<nat> {
      var j := if Inside(i, c.entries) then Named(c.entries, i, forwards == !c.descending, |rows|) else None;
      if j.Some? then Some(c.entries[j.value].rec) else None
    }

    /** A search that ends at an entry lands on the record met first from its place in the order on. */
    lemma {:induction false} LandsOnIs(c: TagCursor<Row>, i: nat, forwards: bool)
      requires Inside(i, c.entries)
      ensures LandsOn(c, i, forwards)
           == Met(InOrder(c.entries, c.descending), Placed(c.entries, c.descending, i), forwards, |rows|)
    {
      hide Named, FirstOf, LastOf;
      NamedIsMet(c.entries, i, c.descending, forwards, |rows|);
    }

    ghost predicate MatchesAt(c: TagCursor<Row>, i: int, s: Search) {
      Inside(i, c.entries) && s.Matches(c.entries[i].key)
    }

    /** From an entry that matches, a search goes on to the entry beside it in the tag's own order, after it or before
        it, and from there to the record met first. */
    lemma {:induction false} ContinuesBeside(c: TagCursor<Row>, s: Search, forwards: bool)
      requires c.Valid() && c.OnKey() && s.Matches(c.entries[c.index].key)
      ensures var order := InOrder(c.entries, c.descending);
              var p := Placed(c.entries, c.descending, c.index) + if forwards then 1 else -1;
              && (MatchesAt(c, c.Adjacent(s, forwards), s) <==> Inside(p, order) && s.Matches(order[p].key))
              && LandsOn(c, c.Adjacent(s, forwards), forwards)
                 == if Inside(p, order) then Met(order, p, forwards, |rows|) else None
    {
      hide Named, FirstOf, LastOf;
      var i := c.Adjacent(s, forwards);
      if Inside(i, c.entries) { LandsOnIs(c, i, forwards); }
    }

    /** The first record with a key that is sought. */
    method SeekExactly(c: TagCursor<Row>, s: Search) returns (r: GoResult)
      requires Valid() && Usable(c) && c.Searchable(s)
      modifies this`buffer, this`position, c
      ensures Valid() && Usable(c) && c.searching && c.active == s && c.atNearest == old(c.atNearest)
      ensures var record := LandsOn(c, c.Sought(s), true);
              if MatchesAt(c, c.Sought(s), s) && record.Some? then
                && r == Ok && position == Position(record.value, false, false)
                && c.At(Named(c.entries, c.Sought(s), !c.descending, |rows|).value)
              else r == NoRecord && position == old(position).Nowhere()
    {
      c.SearchFor(s);
      var outcome := c.Seek(s);
      var landed := c.Land(outcome in {Found, After}, true, |rows|);
      if landed.Some? && outcome == Found {
        r := Reached(landed);
      } else {
        NoRecordFound();
        r := NoRecord;
      }
    }

    /** The first record at or after a value in the selected order, or the last at or before it. */
    method SeekNear(c: TagCursor<Row>, s: Search, forwards: bool) returns (r: SeekResult)
      requires Valid() && Usable(c) && c.Searchable(s)
      modifies this`buffer, this`position, c
      ensures Valid() && Usable(c) && c.searching && c.active == s && c.atNearest == old(c.atNearest)
      ensures var i := if forwards then c.Sought(s) else c.SoughtBack(s);
              var record := LandsOn(c, i, forwards);
              if record.Some? then
                && r == (if MatchesAt(c, i, s) then SeekFound else if forwards then SeekAfter else SeekBefore)
                && position == Position(record.value, false, false)
              else r == (if forwards then SeekEof else SeekBof) && position == old(position).PastEnd(|rows|)
    {
      c.SearchFor(s);
      var outcome;
      if forwards {
        outcome := c.Seek(s);
      } else {
        outcome := c.SeekAtOrBefore(s);
      }
      var landed := c.Land(outcome in {Found, After, Before}, forwards, |rows|);
      if landed.None? {
        MovePastEnd();
        return if forwards then SeekEof else SeekBof;
      }
      Fetch(landed.value);
      r := if outcome == Found then SeekFound else if forwards then SeekAfter else SeekBefore;
    }

    /** The next record that matches the search that is running, or the one before. */
    method Continue(c: TagCursor<Row>, forwards: bool) returns (r: GoResult)
      requires Valid() && Usable(c)
      modifies this`buffer, this`position, c
      ensures Valid() && Usable(c) && c.searching == old(c.searching) && c.active == old(c.active)
      ensures c.atNearest == old(c.atNearest)
      ensures !c.searching ==> r == Refused && position == old(position) && buffer == old(buffer)
      ensures c.searching ==>
                var i := old(c.Adjacent(c.active, forwards));
                var record := LandsOn(c, i, forwards);
                if MatchesAt(c, i, c.active) && record.Some? then
                  && r == Ok && position == Position(record.value, false, false)
                  && c.At(Named(c.entries, i, forwards == !c.descending, |rows|).value)
                else r == NoRecord && position == old(position).Nowhere()
    {
      if !c.searching {
        return Refused;
      }
      var outcome := c.SeekAdjacent(c.active, forwards);
      var landed := c.Land(outcome in {Found, After}, forwards, |rows|);
      if landed.Some? && outcome == Found {
        r := Reached(landed);
      } else {
        NoRecordFound();
        r := NoRecord;
      }
    }

    /** Drops what the selected tag's cursor holds and reads the current record again, if there is one. */
    method Refresh()
      requires Ready()
      modifies this`buffer, this`position, selected
      ensures Ready() && position == old(position) && buffer == old(buffer)
      ensures selected != null ==> !selected.OnKey() && !selected.searching
    {
      if selected != null {
        selected.ForgetBlocks();
      }
      if 1 <= position.number <= |rows| && !position.eof && !position.bof {
        Fetch(position.number);
      }
    }
  }

  // ----- the run of a search -----

  /** Entries that lie between two that match do too. */
  lemma {:induction false} RunIsTogether(c: TagCursor<Row>, s: Search, i: nat, j: nat, k: nat)
    requires c.Valid() && i <= j <= k < |c.entries|
    ensures s.Matches(c.entries[i].key) && s.Matches(c.entries[k].key) ==> s.Matches(c.entries[j].key)
  {
    assert i < j ==> Less(c.entries[i], c.entries[j]);
    assert j < k ==> Less(c.entries[j], c.entries[k]);
  }

  /** Entries that match come at the search's first or after. */
  lemma {:induction false} RunIsAhead(c: TagCursor<Row>, s: Search, i: nat)
    requires c.Valid() && c.Searchable(s) && i < |c.entries| && !c.Topmost(s) && s.Matches(c.entries[i].key)
    ensures if c.descending then i <= c.Sought(s) else c.Sought(s) <= i
  {
    SoughtIsFirst(c, s, i);
  }

  /** What a search, or its continuation, lands on matches if and only if some entry that matches, from there on,
      names a record of the table. */
  lemma {:induction false} LandsInRun(t: Table, c: TagCursor<Row>, s: Search, i: int, forwards: bool)
    requires c.Valid() && t.MatchesAt(c, i, s) && t.LandsOn(c, i, forwards).Some?
    ensures var up := forwards == !c.descending;
            s.Matches(c.entries[Named(c.entries, i, up, |t.rows|).value].key)
            <==> exists k :: 0 <= k < |c.entries| && (if up then i <= k else k <= i)
                             && s.Matches(c.entries[k].key) && InTable(c.entries[k], |t.rows|)
  {
    var up := forwards == !c.descending;
    var j := Named(c.entries, i, up, |t.rows|).value;
    forall k | 0 <= k < |c.entries| && (if up then i <= k else k <= i)
               && s.Matches(c.entries[k].key) && InTable(c.entries[k], |t.rows|)
      ensures s.Matches(c.entries[j].key)
    {
      if up {
        RunIsTogether(c, s, i, j, k);
      } else {
        RunIsTogether(c, s, k, j, i);
      }
    }
  }

  /** The records of the entries that match and name one of the table, in their order. */
  ghost function Run(es: seq<Entry>, s: Search, count: nat): seq<nat> {
    if es == [] then []
    else (if s.Matches(es[0].key) && InTable(es[0], count) then [es[0].rec] else []) + Run(es[1..], s, count)
  }

  lemma {:induction false} RunFrom(es: seq<Entry>, s: Search, count: nat, q: nat)
    requires q <= |es| && forall i :: 0 <= i < q ==> !s.Matches(es[i].key) || !InTable(es[i], count)
    ensures Run(es, s, count) == Run(es[q..], s, count)
  {
    if q > 0 {
      RunFrom(es[1..], s, count, q - 1);
      assert es[1..][q - 1..] == es[q..];
    }
  }

  /** Nothing before the entry a search ends at matches, nor anything else if that one does not. */
  lemma {:induction false} RunStarts(t: Table, c: TagCursor<Row>, s: Search)
    requires c.Valid() && c.Searchable(s) && !c.Topmost(s)
    ensures var order, q := InOrder(c.entries, c.descending), Placed(c.entries, c.descending, c.Sought(s));
            Run(order, s, |t.rows|) == if t.MatchesAt(c, c.Sought(s), s) then Run(order[q..], s, |t.rows|) else []
  {
    var order, q := InOrder(c.entries, c.descending), Placed(c.entries, c.descending, c.Sought(s));
    var upTo := if t.MatchesAt(c, c.Sought(s), s) then q else |order|;
    forall i | 0 <= i < upTo ensures !s.Matches(order[i].key) {
      var k := Placed(c.entries, c.descending, i);
      assert order[i] == c.entries[k];
      SoughtIsFirst(c, s, k);
      if i > q && Inside(c.Sought(s), c.entries) {
        var first := c.entries[c.Sought(s)];
        SoughtIsFirst(c, s, c.Sought(s));
        assert if c.descending then Less(c.entries[k], first) else Less(first, c.entries[k]);
      }
    }
    RunFrom(order, s, |t.rows|, upTo);
  }

  /** Behind an entry that matches the run is over if the next one does not. */
  lemma {:induction false} RunEnds(t: Table, c: TagCursor<Row>, s: Search, q: nat)
    requires c.Valid() && q < |c.entries| && t.MatchesAt(c, Placed(c.entries, c.descending, q), s)
    requires !t.MatchesAt(c, Placed(c.entries, c.descending, q + 1), s)
    ensures Run(InOrder(c.entries, c.descending)[q + 1..], s, |t.rows|) == []
  {
    hide Run;
    var next := Placed(c.entries, c.descending, q + 1);
    var rest := InOrder(c.entries, c.descending)[q + 1..];
    forall i | 0 <= i < |rest| ensures !s.Matches(rest[i].key) {
      var k := Placed(c.entries, c.descending, q + 1 + i);
      assert rest[i] == c.entries[k];
      if c.descending {
        RunIsTogether(c, s, k, next, next + 1);
      } else {
        RunIsTogether(c, s, next - 1, next, k);
      }
    }
    RunOver(rest, s, |t.rows|);
  }

  lemma {:induction false} RunOver(es: seq<Entry>, s: Search, count: nat)
    requires forall i :: 0 <= i < |es| ==> !s.Matches(es[i].key) || !InTable(es[i], count)
    ensures Run(es, s, count) == []
  {
    RunFrom(es, s, count, |es|);
  }

  /** The place in the tag's own order of the entry a search that ends at the `q`-th lands on. */
  ghost function LandsAt(t: Table, c: TagCursor<Row>, q: int): Option<int> {
    var i := Placed(c.entries, c.descending, q);
    var j := if Inside(i, c.entries) then Named(c.entries, i, !c.descending, |t.rows|) else None;
    if j.Some? then Some(Placed(c.entries, c.descending, j.value)) else None
  }

  /** From the `q`-th entry on, the run is what it is from the landing on. */
  lemma {:induction false} RunLands(t: Table, c: TagCursor<Row>, s: Search, q: nat)
    requires q < |c.entries|
    ensures var order, p := InOrder(c.entries, c.descending), LandsAt(t, c, q);
            && (p.Some? ==> q <= p.value < |order| && InTable(order[p.value], |t.rows|))
            && Run(order[q..], s, |t.rows|) == if p.None? then [] else Run(order[p.value..], s, |t.rows|)
  {
    hide Run;
    var order, p := InOrder(c.entries, c.descending), LandsAt(t, c, q);
    var upTo := if p.None? then |order| else p.value;
    forall i | 0 <= i < upTo - q ensures !InTable(order[q..][i], |t.rows|) {
      assert order[q..][i] == c.entries[Placed(c.entries, c.descending, q + i)];
    }
    if p.None? {
      RunOver(order[q..], s, |t.rows|);
    } else {
      RunFrom(order[q..], s, |t.rows|, upTo - q);
      assert order[q..][upTo - q..] == order[upTo..];
    }
  }

  /** The table is on the `q`-th entry of the tag, which matches the search that is running, or on none. */
  ghost predicate OnRun(t: Table, c: TagCursor<Row>, s: Search, go: GoResult, q: int)
    reads t, c
  {
    && t.Valid() && t.Usable(c) && c.searching && c.active == s && go != Refused
    && (go == Ok ==>
          var i := Placed(c.entries, c.descending, q);
          && t.MatchesAt(c, i, s) && c.At(i) && InTable(c.entries[i], |t.rows|)
          && t.position.number == c.entries[i].rec)
  }

  /** Wherever an entry matches, the first entry from there on that names a record does, if there is one. */
  ghost predicate StaysInRun(t: Table, c: TagCursor<Row>, s: Search) {
    forall i :: t.MatchesAt(c, i, s) && t.LandsOn(c, i, true).Some? ==>
      s.Matches(c.entries[Named(c.entries, i, !c.descending, |t.rows|).value].key)
  }

  /** What is left of the run when the next entry looked at is the `q`-th. */
  ghost function Left(t: Table, c: TagCursor<Row>, s: Search, q: int): seq<nat> {
    if t.MatchesAt(c, Placed(c.entries, c.descending, q), s) && LandsAt(t, c, q).Some?
    then LeftFrom(t, c, s, LandsAt(t, c, q).value) else []
  }

  ghost function LeftFrom(t: Table, c: TagCursor<Row>, s: Search, q: int): seq<nat> {
    if Inside(q, c.entries) then Run(InOrder(c.entries, c.descending)[q..], s, |t.rows|) else []
  }

  lemma {:induction false} RunStep(es: seq<Entry>, s: Search, count: nat, q: nat)
    requires q < |es| && s.Matches(es[q].key) && InTable(es[q], count)
    ensures Run(es[q..], s, count) == [es[q].rec] + Run(es[q + 1..], s, count)
  {
    assert es[q..][1..] == es[q + 1..];
  }

  lemma {:induction false} LeftIs(t: Table, c: TagCursor<Row>, s: Search, q: nat)
    requires c.Valid() && q < |c.entries| && t.MatchesAt(c, Placed(c.entries, c.descending, q), s)
    requires InTable(c.entries[Placed(c.entries, c.descending, q)], |t.rows|)
    ensures LeftFrom(t, c, s, q) == [InOrder(c.entries, c.descending)[q].rec] + Left(t, c, s, q + 1)
  {
    hide LandsAt, Run;
    var order := InOrder(c.entries, c.descending);
    assert order[q] == c.entries[Placed(c.entries, c.descending, q)];
    RunStep(order, s, |t.rows|, q);
    if !t.MatchesAt(c, Placed(c.entries, c.descending, q + 1), s) {
      RunEnds(t, c, s, q);
    } else {
      RunLands(t, c, s, q + 1);
    }
  }

  lemma {:induction false} TopmostNone(c: TagCursor<Row>, s: Search)
    ensures c.Topmost(s) ==> !Inside(c.Sought(s), c.entries)
  {
  }

  method BeginRun(t: Table, c: TagCursor<Row>, s: Search) returns (go: GoResult, ghost q: int)
    requires t.Valid() && t.Usable(c) && c.Searchable(s) && (c.Topmost(s) || StaysInRun(t, c, s))
    modifies t`buffer, t`position, c
    ensures OnRun(t, c, s, go, q) && (go == Ok ==> 0 <= q < |c.entries|)
    ensures Left(t, c, s, Placed(c.entries, c.descending, c.Sought(s))) == if go == Ok then LeftFrom(t, c, s, q) else []
    ensures c.Topmost(s) ==> go != Ok
  {
    hide Run, InOrder, TagCursor.Sought, TagCursor.Topmost;
    TopmostNone(c, s);
    var first := LandsAt(t, c, Placed(c.entries, c.descending, c.Sought(s)));
    q := if first.Some? then first.value else 0;
    go := t.SeekExactly(c, s);
  }

  method NextOfRun(t: Table, c: TagCursor<Row>, s: Search, ghost q: int) returns (go: GoResult, ghost next: int)
    requires OnRun(t, c, s, Ok, q) && StaysInRun(t, c, s)
    modifies t`buffer, t`position, c
    ensures OnRun(t, c, s, go, next) && (go == Ok ==> q < next < |c.entries|)
    ensures Left(t, c, s, q + 1) == if go == Ok then LeftFrom(t, c, s, next) else []
  {
    hide Run, InOrder, TagCursor.Sought;
    var landing := LandsAt(t, c, q + 1);
    next := if landing.Some? then landing.value else 0;
    go := t.Continue(c, true);
  }

  lemma {:induction false} OnRunIs(t: Table, c: TagCursor<Row>, s: Search, q: int)
    requires OnRun(t, c, s, Ok, q)
    ensures 0 <= q && t.position.number >= 1 && LeftFrom(t, c, s, q) == [t.position.number] + Left(t, c, s, q + 1)
  {
    hide Run, Left, LeftFrom;
    LeftIs(t, c, s, q);
  }

  lemma {:induction false} WholeRun(t: Table, c: TagCursor<Row>, s: Search)
    requires t.Usable(c) && c.Searchable(s)
    ensures Left(t, c, s, Placed(c.entries, c.descending, c.Sought(s)))
         == if c.Topmost(s) then [] else Run(InOrder(c.entries, c.descending), s, |t.rows|)
  {
    hide LandsAt;
    TopmostNone(c, s);
    if !c.Topmost(s) {
      RunStarts(t, c, s);
      var q := Placed(c.entries, c.descending, c.Sought(s));
      if t.MatchesAt(c, c.Sought(s), s) { RunLands(t, c, s, q); }
    }
  }

  /** Of the whole run so much has been visited, and the rest is from the `q`-th entry on, or nothing. */
  ghost predicate Visiting(t: Table, c: TagCursor<Row>, s: Search, go: GoResult, q: int, visited: seq<nat>)
    reads t, c
  {
    && OnRun(t, c, s, go, q) && (go == Ok ==> 0 <= q < |c.entries|)
    && visited + (if go == Ok then LeftFrom(t, c, s, q) else [])
       == if c.Topmost(s) then [] else Run(InOrder(c.entries, c.descending), s, |t.rows|)
  }

  method BeginVisit(t: Table, c: TagCursor<Row>, s: Search) returns (go: GoResult, ghost q: int)
    requires t.Valid() && t.Usable(c) && c.Searchable(s) && (c.Topmost(s) || StaysInRun(t, c, s))
    modifies t`buffer, t`position, c
    ensures Visiting(t, c, s, go, q, []) && (c.Topmost(s) ==> go != Ok)
  {
    hide Run, InOrder, StaysInRun, OnRun, Left, LeftFrom, TagCursor.Topmost;
    WholeRun(t, c, s);
    go, q := BeginRun(t, c, s);
  }

  method VisitNext(t: Table, c: TagCursor<Row>, s: Search, ghost q: int, visited: seq<nat>)
    returns (go: GoResult, ghost next: int, more: seq<nat>)
    requires Visiting(t, c, s, Ok, q, visited) && StaysInRun(t, c, s)
    modifies t`buffer, t`position, c
    ensures Visiting(t, c, s, go, next, more) && (go == Ok ==> q < next < |c.entries|)
  {
    hide Run, InOrder, StaysInRun, OnRun, Left, LeftFrom, TagCursor.Topmost;
    OnRunIs(t, c, s, q);
    more := visited + [t.position.number];
    assert visited + LeftFrom(t, c, s, q) == more + Left(t, c, s, q + 1);
    go, next := NextOfRun(t, c, s, q);
  }

  /** A search and its continuation visit every entry that matches and names a record, once, in the tag's own order;
      a search for the greatest key of a descending tag visits none.  This is so unless a landing leaves the run. */
  method VisitRun(t: Table, c: TagCursor<Row>, s: Search) returns (visited: seq<nat>)
    requires t.Valid() && t.Usable(c) && c.Searchable(s) && (c.Topmost(s) || StaysInRun(t, c, s))
    modifies t`buffer, t`position, c
    ensures visited == if c.Topmost(s) then [] else Run(InOrder(c.entries, c.descending), s, |t.rows|)
  {
    hide Run, InOrder, StaysInRun, OnRun, LeftFrom, TagCursor.Topmost;
    visited := [];
    var go: GoResult;
    ghost var q: int;
    go, q := BeginVisit(t, c, s);
    while go == Ok
      invariant Visiting(t, c, s, go, q, visited) && (go == Ok ==> StaysInRun(t, c, s))
      decreases go == Ok, |c.entries| - q
    {
      go, q, visited := VisitNext(t, c, s, q, visited);
    }
  }

  /** The entry matches, and the first one from there on that names a record does not. */
  ghost predicate Leaves(t: Table, c: TagCursor<Row>, s: Search, k: int) {
    && t.MatchesAt(c, k, s) && t.LandsOn(c, k, true).Some?
    && !s.Matches(c.entries[Named(c.entries, k, !c.descending, |t.rows|).value].key)
  }

  /** From an entry the walk has landed on, and from the search's first, the next landing is on some record. */
  lemma {:induction false} GoesOn(t: Table, c: TagCursor<Row>, s: Search, k: int)
    requires c.Valid() && c.Searchable(s) && !c.Topmost(s) && Leaves(t, c, s, k)
    ensures t.MatchesAt(c, c.Sought(s), s) && t.LandsOn(c, c.Sought(s), true).Some?
    ensures forall i :: t.MatchesAt(c, i, s) && InTable(c.entries[i], |t.rows|) ==>
              t.MatchesAt(c, c.Target(i, 1), s) && t.LandsOn(c, c.Target(i, 1), true).Some?
  {
    hide TagCursor.Sought;
    RunIsAhead(c, s, k);
    var first := c.Sought(s);
    SoughtMatches(c, s, k);
    forall i | t.MatchesAt(c, i, s) && InTable(c.entries[i], |t.rows|)
      ensures t.MatchesAt(c, c.Target(i, 1), s) && t.LandsOn(c, c.Target(i, 1), true).Some?
    {
      var j := Named(c.entries, k, !c.descending, |t.rows|).value;
      if c.descending {
        if i <= j { RunIsTogether(c, s, i, j, k); }
        if i > k { RunIsTogether(c, s, k, i - 1, i); }
      } else {
        if j <= i { RunIsTogether(c, s, k, j, i); }
        if i < k { RunIsTogether(c, s, i, i + 1, k); }
      }
    }
  }

  lemma {:induction false} SoughtMatches(c: TagCursor<Row>, s: Search, k: nat)
    requires c.Valid() && c.Searchable(s) && !c.Topmost(s) && k < |c.entries| && s.Matches(c.entries[k].key)
    ensures Inside(c.Sought(s), c.entries) && s.Matches(c.entries[c.Sought(s)].key)
  {
    RunIsAhead(c, s, k);
    var first := c.Sought(s);
    if Inside(first, c.entries) {
      SoughtIsFirst(c, s, first);
      assert first != k ==> if c.descending then Less(c.entries[k], c.entries[first])
                            else Less(c.entries[first], c.entries[k]);
    }
  }

  /** A search from whose run a landing leaves is never over: after any number of continuations there is a record,
      because one that does not match starts the search again. */
  method RunsOver(t: Table, c: TagCursor<Row>, s: Search, rounds: nat) returns (go: GoResult)
    requires t.Valid() && t.Usable(c) && c.Searchable(s) && !c.Topmost(s) && !StaysInRun(t, c, s)
    modifies t`buffer, t`position, c
    ensures go == Ok
  {
    ghost var k :| t.MatchesAt(c, k, s) && t.LandsOn(c, k, true).Some?
                   && !s.Matches(c.entries[Named(c.entries, k, !c.descending, |t.rows|).value].key);
    assert Leaves(t, c, s, k);
    GoesOn(t, c, s, k);
    hide TagCursor.Sought;
    go := t.SeekExactly(c, s);
    var done := 0;
    while done < rounds
      invariant done <= rounds && t.Valid() && t.Usable(c) && c.searching && c.active == s && go == Ok
      invariant c.OnKey() && InTable(c.entries[c.index], |t.rows|)
    {
      go := t.Continue(c, true);
      done := done + 1;
    }
  }

  // ----- skips and steps against the tag's own order -----

  /** A skip from a record the tag does not list, and not all of whose keys are below the record's, answers
      and lands like a walk from the record's place if and only if no entry with its key has a lower record,
      or the two walks land alike nevertheless. */
  lemma {:induction false} NearSkip(t: Table, pos: Position, c: TagCursor<Row>, e: Entry, n: int)
    requires c.Valid() && Unrepeated(c.entries) && n != 0 && !(c.descending && n == -1)
    requires !pos.bof && t.rows != []
    ensures var at := Below(c.entries, e.key);
            t.TagSkip(pos, c, Start(at, true), n) == t.Arrive(pos, c.WalkFromPlace(e, n, |t.rows|))
            <==> NoLower(c.entries, e)
                 || Alike(c.entries, c.Target(at, Adjusted(n, c.descending, true)), c.PlaceTarget(e, n),
                          (n > 0) == !c.descending, n > 0, |t.rows|)
  {
    hide TagCursor.Walk, TagCursor.WalkFromPlace, Alike, NoLower;
    NearestLands(c, e, n, |t.rows|);
  }

  /** A skip from a record whose key is above every key of the tag does so exactly when it goes forwards and the
      walk runs off the tag, or meets no record of the table and the table ends at both ends already. */
  lemma {:induction false} BeyondSkip(t: Table, pos: Position, c: TagCursor<Row>, e: Entry, n: int)
    requires c.Valid() && n != 0 && Below(c.entries, e.key) == |c.entries|
    ensures t.TagSkip(pos, c, Beyond, n) == t.Arrive(pos, c.WalkFromPlace(e, n, |t.rows|))
            <==> n > 0 && (!c.descending || n > |c.entries|
                           || (Named(c.entries, |c.entries| - n, false, |t.rows|).None? && pos.PastEnd(|t.rows|).bof))
  {
    NoLowerIs(c.entries, e);
  }

  /** And a single step exactly when it goes towards greater keys or the tag names no record of the table. */
  lemma {:induction false} BeyondStep(t: Table, c: TagCursor<Row>, e: Entry, n: int)
    requires c.Valid() && (n == 1 || n == -1) && Below(c.entries, e.key) == |c.entries|
    ensures t.TagStep(c, Beyond, n) == t.Landed(c.WalkFromPlace(e, n, |t.rows|))
            <==> (n > 0) == !c.descending || forall i :: 0 <= i < |c.entries| ==> !InTable(c.entries[i], |t.rows|)
  {
    NoLowerIs(c.entries, e);
  }

  /** A step from a record's own entry is right if and only if no earlier synchronization has left its note
      behind, or the step goes the way the note does not shorten. */
  lemma {:induction false} StaleStep(t: Table, c: TagCursor<Row>, i: nat, n: int, near: bool)
    requires c.Valid() && i < |c.entries| && InTable(c.entries[i], |t.rows|) && Unrepeated(c.entries)
    requires n == 1 || n == -1
    ensures t.TagStep(c, Start(i, near), n) == t.TagStep(c, Start(i, false), n) <==> !near || (n > 0) == c.descending
    ensures near && (n > 0) != c.descending ==>
              t.TagStep(c, Start(i, near), n) == (Ok, Position(c.entries[i].rec, false, false))
  {
    StaleSkip(c, i, n, near, |t.rows|);
    if near && (n > 0) != c.descending {
      StaleStays(c, i, n, |t.rows|);
    }
  }

  // ----- inputs at which the skips go wrong -----

  /** A step in the tag's order from the record a search found does not end the search. */
  method SearchOutlives() returns (t: Table, c: TagCursor<Row>, r: GoResult)
    ensures c.entries == [Entry(5, 1), Entry(5, 2)] && t.selected == c
    ensures r == Ok && t.position.number == 2 && c.searching
  {
    t := new Table([[], []], []);
    c := new TagCursor([Entry(5, 1), Entry(5, 2)], false, 9, row => 5);
    t.SelectTag(c);
    assert c.Sought(Keys(5, 5)) == 0;
    r := t.SeekExactly(c, Keys(5, 5));
    assert c.OnRecord(1) && t.position.number == 1;
    r := t.StepIndexed(c, 1);
  }

  /** From record 2, whose place is between the two entries of its key, one step forwards lands on record 1. */
  method StepsBack() returns (t: Table, c: TagCursor<Row>, r: SkipResult)
    ensures c.entries == [Entry(5, 1), Entry(5, 3)] && !c.descending && |t.rows| == 3
    ensures r == SkipMoved && t.position.number == 1
    ensures Less(Entry(5, 1), Entry(5, 2)) && c.WalkFromPlace(Entry(5, 2), 1, 3) == Moved(3)
  {
    t := new Table([[], [], []], []);
    c := new TagCursor([Entry(5, 1), Entry(5, 3)], false, 9, row => 5);
    hide Table.SkipBy, Placed;
    var go := t.Go(2);
    r := t.SkipInTagOrder(c, 1);
  }

  /** From record 2, whose key is above the only one, two steps back end past the table and not on record 1. */
  method StepsPast() returns (t: Table, c: TagCursor<Row>, r: SkipResult)
    ensures c.entries == [Entry(1, 1)] && !c.descending && |t.rows| == 2
    ensures r == SkipBof && t.position.number == 3
    ensures c.WalkFromPlace(Entry(9, 2), -2, 2) == Stopped(1)
  {
    t := new Table([[], [0]], []);
    c := new TagCursor([Entry(1, 1)], false, 9, row => if row == [] then 1 else 9);
    var go := t.Go(2);
    r := t.SkipInTagOrder(c, -2);
  }

  /** A table on its third record, which the selected tag does not list. */
  method OffTheTag() returns (t: Table, c: TagCursor<Row>)
    ensures fresh(t) && fresh(c) && t.Ready() && t.selected == c && t.Usable(c) && !c.atNearest
    ensures c.entries == [Entry(5, 1), Entry(6, 2)] && !c.descending && t.rows == [[], [0], [0, 0]]
    ensures t.position == Position(3, false, false) && c.Place(3, t.buffer) == Start(0, true)
  {
    t := new Table([[], [0], [0, 0]], []);
    c := new TagCursor([Entry(5, 1), Entry(6, 2)], false, 9,
                       row => if row == [] then 5 else if row == [0] then 6 else 4);
    t.SelectTag(c);
    var go := t.Go(3);
  }

  /** The first step from there lands on the entry of record 1; the second stays there. */
  method StepsNowhere() returns (t: Table, c: TagCursor<Row>, r: GoResult)
    ensures c.entries == [Entry(5, 1), Entry(6, 2)] && !c.descending && |t.rows| == 3
    ensures r == Ok && t.position.number == 1 && c.Valid() && c.OnRecord(1) && c.atNearest
  {
    t, c := OffTheTag();
    r := t.StepIndexed(c, 1);
    r := t.StepIndexed(c, 1);
  }

  /** Of the entries of a descending tag, the one nearest to record 3 names no record: a step back, to record 2,
      lands on record 1 on the other side. */
  method TurnsRound() returns (t: Table, c: TagCursor<Row>, r: SkipResult)
    ensures c.entries == [Entry(3, 1), Entry(5, 9), Entry(7, 2)] && c.descending && |t.rows| == 3
    ensures r == SkipMoved && t.position.number == 1
    ensures c.WalkFromPlace(Entry(4, 3), -1, 3) == Moved(2)
  {
    t := new Table([[], [0], [0, 0]], []);
    c := new TagCursor([Entry(3, 1), Entry(5, 9), Entry(7, 2)], true, 9,
                       row => if row == [] then 3 else if row == [0] then 7 else 4);
    var go := t.Go(3);
    assert Below(c.entries, 4) == 1 && Ahead(c.entries, Entry(4, 3)) == 1 by {
      BelowSplits(c.entries, 4);
      AheadSplits(c.entries, Entry(4, 3));
    }
    assert c.Place(3, t.buffer) == Start(1, true);
    r := t.SkipInTagOrder(c, -1);
    assert c.WalkFromPlace(Entry(4, 3), -1, 3) == c.WalkTo(1, false, 3);
  }

  /** Record 1 has the greatest possible key and comes first on a descending tag: a step back from it, which runs
      off the front, is answered as one that was made. */
  method TopStays() returns (t: Table, c: TagCursor<Row>, r: SkipResult)
    ensures c.entries == [Entry(5, 2), Entry(9, 1)] && c.descending && c.limit == 9 && |t.rows| == 2
    ensures r == SkipMoved && t.position.number == 1
    ensures c.Walk(1, -1, 2) == Stopped(1)
  {
    t := new Table([[], [0]], []);
    c := new TagCursor([Entry(5, 2), Entry(9, 1)], true, 9, row => if row == [] then 9 else 5);
    var go := t.Go(1);
    assert c.Place(1, t.buffer) == Start(1, true);
    r := t.SkipInTagOrder(c, -1);
  }

  /** The only entry with the key sought names no record, and the next one is answered. */
  method FindsAnother() returns (t: Table, c: TagCursor<Row>, r: GoResult)
    ensures c.entries == [Entry(5, 9), Entry(6, 1)] && |t.rows| == 1 && c.active == Keys(5, 5)
    ensures r == Ok && t.position.number == 1
  {
    t := new Table([[]], []);
    c := new TagCursor([Entry(5, 9), Entry(6, 1)], false, 9, row => 6);
    assert c.Sought(Keys(5, 5)) == 0;
    r := t.SeekExactly(c, Keys(5, 5));
  }

  /** A table on the record it found, of two entries that match; the second names no record. */
  method FindsFirst() returns (t: Table, c: TagCursor<Row>, r: GoResult)
    ensures fresh(t) && fresh(c) && t.Valid() && t.Usable(c) && !c.descending && |t.rows| == 2 && r == Ok
    ensures c.entries == [Entry(5, 1), Entry(5, 9), Entry(6, 2)] && c.At(0) && c.searching && c.active == Keys(5, 5)
  {
    t := new Table([[], [0]], []);
    c := new TagCursor([Entry(5, 1), Entry(5, 9), Entry(6, 2)], false, 9, row => if row == [] then 5 else 6);
    assert c.Sought(Keys(5, 5)) == 0;
    r := t.SeekExactly(c, Keys(5, 5));
  }

  /** Continuing from there lands outside the run, and continuing again starts over. */
  method StartsOver() returns (t: Table, c: TagCursor<Row>, second: int, third: int)
    ensures c.entries == [Entry(5, 1), Entry(5, 9), Entry(6, 2)] && c.active == Keys(5, 5) && |t.rows| == 2
    ensures second == 2 && third == 1
  {
    var r;
    t, c, r := FindsFirst();
    assert c.Sought(Keys(5, 5)) == 0;
    assert Named(c.entries, 1, true, 2) == Some(2) && Named(c.entries, 0, true, 2) == Some(0);
    r := t.Continue(c, true);
    assert c.At(2) && c.Adjacent(Keys(5, 5), true) == 0;
    second := t.position.number;
    r := t.Continue(c, true);
    third := t.position.number;
  }
}
