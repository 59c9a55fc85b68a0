/** Walking the records of a table that a filter accepts.

    The index has answered what it could: `candidates` are the records it leaves, and `residual` checks the
    terms it could not answer.  Every walk is to visit exactly the records a scan of the whole table with
    the filter would accept. */
module Queries {
  import opened Wrappers
  import opened TagCursors
  import opened Tables

  /** What planning a filter leaves to the walk. */
  datatype Plan = Plan(candidates: set<nat>, hasWork: bool, residual: Row -> bool)

  class Query {
    const table: Table
    const plan: Plan
    ghost const filter: Row -> bool
    var eof: bool
    var bof: bool

    constructor (table: Table, plan: Plan, ghost filter: Row -> bool)
      requires Planned(table, plan, filter)
      ensures this.table == table && this.plan == plan && this.filter == filter && !eof && !bof
    {
      this.table, this.plan, this.filter := table, plan, filter;
      eof, bof := false, false;
    }

    ghost predicate Valid()
      reads this, table, table.selected
    {
      Planned(table, plan, filter) && table.Ready()
    }

    /** The record the query is on, or zero. */
    function RecordNumber(): int
      reads this, table
    {
      if eof || bof then 0 else table.position.number
    }

    /** Whether the record the table is on, a candidate, satisfies the filter. */
    predicate Admits()
      reads table
    {
      !plan.hasWork || plan.residual(table.buffer)
    }

    /** The first candidate at or after a record, or zero. */
    method NextFrom(from: int) returns (r: nat)
      ensures r != 0 ==> r in plan.candidates && from <= r && 1 <= r <= |table.rows|
      ensures forall k :: 1 <= k <= |table.rows| && from <= k && (r != 0 ==> k < r) ==> k !in plan.candidates
    {
      r := if from < 1 then 1 else from;
      while r <= |table.rows|
        invariant from <= r && 1 <= r
        invariant forall k :: 1 <= k <= |table.rows| && from <= k < r ==> k !in plan.candidates
      {
        if r in plan.candidates {
          return;
        }
        r := r + 1;
      }
      r := 0;
    }

    /** Walks the candidates by record number, away from `from`. */
    method StepByRecord(from: int, forwards: bool) returns (found: bool)
      requires Valid() && table.selected == null
      modifies table`buffer, table`position
      ensures Valid()
      ensures var r := if forwards then FirstAfter(table.rows, filter, from) else LastBefore(table.rows, filter, from);
              && (found <==> r != 0) && (found ==> table.position == Position(r, false, false))
    {
      if forwards {
        var record := NextFrom(from + 1);
        SkipTo(table, plan, filter, from, record);
        while record != 0
          invariant Valid()
          invariant record != 0 ==> record in plan.candidates && 1 <= record <= |table.rows|
          invariant FirstAfter(table.rows, filter, from)
                 == if record == 0 then 0 else FirstAfter(table.rows, filter, record - 1)
          decreases if record == 0 then 0 else |table.rows| + 1 - record
        {
          var go := table.Go(record);
          if go == Ok && Admits() {
            return true;
          }
          var next := NextFrom(record + 1);
          SkipTo(table, plan, filter, record, next);
          record := next;
        }
        return false;
      }
      var record := if from - 1 < |table.rows| then from - 1 else |table.rows|;
      LastBeforeEnd(table.rows, filter, from);
      while record >= 1
        invariant Valid() && record <= |table.rows|
        invariant LastBefore(table.rows, filter, from) == LastBefore(table.rows, filter, record + 1)
      {
        if record in plan.candidates {
          var go := table.Go(record);
          if go == Ok && Admits() {
            return true;
          }
        }
        record := record - 1;
      }
      found := false;
    }

    /** Notes which end the query stopped at, when it stopped. */
    method Settle(found: bool, forwards: bool) returns (r: GoResult)
      modifies this`eof, this`bof
      ensures r == (if found then Ok else NoRecord)
      ensures eof == (old(eof) || (!found && forwards)) && bof == (old(bof) || (!found && !forwards))
    {
      if found {
        return Ok;
      }
      if forwards {
        eof := true;
      } else {
        bof := true;
      }
      r := NoRecord;
    }

    /** The query is on the match `hit`, or, where that is zero, at the end it was going to. */
    ghost predicate Settled(r: GoResult, hit: nat, forwards: bool)
      reads this, table
    {
      && r == (if hit != 0 then Ok else NoRecord)
      && (hit != 0 ==> RecordNumber() == hit == table.position.number && !eof && !bof)
      && (hit == 0 ==> eof == forwards && bof == !forwards && RecordNumber() == 0)
    }

    /** The first match by record number, or the last. */
    method Outermost(first: bool) returns (r: GoResult)
      requires Valid() && table.selected == null
      modifies this`eof, this`bof, table`buffer, table`position
      ensures Valid()
      ensures Settled(r, NextOf(table.rows, filter, if first then 0 else |table.rows| + 1, first), first)
    {
      eof, bof := false, false;
      var found := StepByRecord(if first then 0 else |table.rows| + 1, first);
      r := Settle(found, first);
    }

    /** The next match by record number, or the one before; at an end the query stays there. */
    method Move(forwards: bool) returns (r: GoResult)
      requires Valid() && table.selected == null
      modifies this`eof, this`bof, table`buffer, table`position
      ensures Valid()
      ensures (if forwards then old(eof) else old(bof)) ==>
                r == NoRecord && eof == old(eof) && bof == old(bof) && table.position == old(table.position)
      ensures !old(eof) && !old(bof) ==>
                Settled(r, NextOf(table.rows, filter, old(table.position.number), forwards), forwards)
      ensures old(eof) || old(bof) ==> RecordNumber() == 0
    {
      if (if forwards then eof else bof) {
        return NoRecord;
      }
      var from := if bof || eof then if forwards then 0 else |table.rows| + 1 else table.position.number;
      var found := StepByRecord(from, forwards);
      r := Settle(found, forwards);
    }

    /** How many records match; where nothing is left to check, the candidates themselves are counted. */
    method Count() returns (n: nat)
      requires Valid()
      modifies table`buffer, table`position, table.Selected()`searching
      ensures Valid() && n == |Scanned(table.rows, filter, |table.rows|)|
    {
      n := 0;
      if !plan.hasWork {
        var record := 1;
        while record <= |table.rows|
          invariant Valid() && 1 <= record <= |table.rows| + 1
          invariant n == |Scanned(table.rows, filter, record - 1)|
        {
          if record in plan.candidates {
            n := n + 1;
          }
          record := record + 1;
        }
        return;
      }
      var record := NextFrom(1);
      NoneBetween(table, plan, filter, 0, record);
      while record != 0
        invariant Valid()
        invariant record != 0 ==> record in plan.candidates && 1 <= record <= |table.rows|
        invariant n == |Scanned(table.rows, filter, if record == 0 then |table.rows| else record - 1)|
        decreases if record == 0 then 0 else |table.rows| + 1 - record
      {
        var go := table.Go(record);
        if go == Ok && Admits() {
          n := n + 1;
        }
        var next := NextFrom(record + 1);
        NoneBetween(table, plan, filter, record, next);
        record := next;
      }
    }

    /** The table is on the record of the entry `at`, or on none. */
    ghost predicate On(c: TagCursor<Row>, go: GoResult, at: Option<nat>)
      reads table, c
    {
      && go != Refused && (go == Ok <==> at.Some?)
      && (at.Some? ==>
            && at.value < |c.entries| && c.At(at.value) && InTable(c.entries[at.value], |table.rows|)
            && table.position == Position(c.entries[at.value].rec, false, false))
    }

    /** A step, unlike a move to an end, needs a record to start from. */
    ghost predicate Refuses(fromEnd: bool)
      reads table
    {
      !fromEnd && table.position.number < 1
    }

    /** Whether a walk comes in from an end of the tag. */
    ghost predicate FromOutside(fromEnd: bool)
      reads table
    {
      fromEnd || table.position.eof
    }

    /** Where the tag's cursor is put for the record the table is on. */
    ghost function StartOf(c: TagCursor<Row>): Start
      reads table, c
      requires c.Valid()
    {
      if table.position.number < 1 then Beyond else c.Place(table.position.number, table.buffer)
    }

    /** The entry a walk looks at first. */
    ghost function FirstAt(c: TagCursor<Row>, fromEnd: bool, forwards: bool): Option<nat>
      reads table, c
      requires c.Valid()
    {
      var up := forwards == !c.descending;
      if FromOutside(fromEnd) then
        if fromEnd || !forwards then Named(c.entries, if up then 0 else |c.entries| - 1, up, |table.rows|) else None
      else
        var start := StartOf(c);
        if start == Beyond then None else table.Headed(c, start, if forwards then 1 else -1)
    }

    /** Whether the note that the cursor is only near a record is set once the walk is there. */
    ghost predicate Noted(c: TagCursor<Row>, fromEnd: bool)
      reads table, c
      requires c.Valid()
    {
      if FromOutside(fromEnd) then c.atNearest
      else StartOf(c).Start? && StartOf(c).near
    }

    /** The first match a walk meets. */
    ghost function NextHit(c: TagCursor<Row>, fromEnd: bool, forwards: bool): Option<nat>
      reads table, c
      requires c.Valid()
    {
      var first := FirstAt(c, fromEnd, forwards);
      if first.None? then None else HitFrom(c.entries, first.value, forwards == !c.descending, table.rows, filter)
    }

    /** A walk ends unless it goes the way the note shortens, with the note set, and the first record it meets
        is rejected. */
    ghost predicate Terminates(c: TagCursor<Row>, fromEnd: bool, forwards: bool)
      reads table, c
      requires c.Valid()
    {
      var first := FirstAt(c, fromEnd, forwards);
      || Refuses(fromEnd) || first.None? || !Noted(c, fromEnd) || forwards == c.descending
      || Hit(c.entries[first.value], table.rows, filter)
    }

    /** One step in the tag's order, or a move to one of its ends. */
    method StepOn(c: TagCursor<Row>, fromEnd: bool, forwards: bool) returns (go: GoResult, ghost at: Option<nat>)
      requires Valid() && c == table.selected
      modifies table`buffer, table`position, c
      ensures Valid() && at == old(FirstAt(c, fromEnd, forwards))
      ensures old(Refuses(fromEnd)) ==> go == Refused && table.position == old(table.position)
      ensures !old(Refuses(fromEnd)) ==> On(c, go, at) && (go == Ok ==> c.atNearest == old(Noted(c, fromEnd)))
    {
      hide Named, Planned, IndexOf, TagCursor.Walk, TagCursor.Place;
      at := FirstAt(c, fromEnd, forwards);
      if fromEnd {
        go := table.GoOutermost(c, forwards);
      } else {
        go := table.StepIndexed(c, if forwards then 1 else -1);
      }
    }

    /** What the candidates and the residual check say of the entry the walk is at, and where it goes next. */
    lemma {:induction false} AtEntry(c: TagCursor<Row>, at: nat, forwards: bool)
      requires Valid() && c == table.selected && On(c, Ok, Some(at))
      ensures !Refuses(false) && Noted(c, false) == c.atNearest
      ensures table.position.number in plan.candidates && Admits() <==> Hit(c.entries[at], table.rows, filter)
      ensures FirstAt(c, false, forwards)
           == if c.atNearest && forwards != c.descending then Some(at)
              else Named(c.entries, c.Target(at, if forwards then 1 else -1), forwards == !c.descending, |table.rows|)
    {
      HitHere(table, plan, filter, c.entries[at]);
      NamedInside(c.entries, c.Target(at, if forwards then 1 else -1), forwards == !c.descending, |table.rows|);
    }

    /** From the entry of a record that is listed, or from near one that is not in the direction that is not
        shortened, the next match is the first from the entry beside it on. */
    lemma {:induction false} NextIsBeside(c: TagCursor<Row>, forwards: bool)
      requires Valid() && c == table.selected && !Refuses(false) && !table.position.eof
      requires StartOf(c).Start? && (!StartOf(c).near || forwards == c.descending)
      ensures NextHit(c, false, forwards)
           == HitFrom(c.entries, c.Target(StartOf(c).at, if forwards then 1 else -1),
                      forwards == !c.descending, table.rows, filter)
    {
      var next := c.Target(StartOf(c).at, if forwards then 1 else -1);
      NamedInside(c.entries, next, forwards == !c.descending, |table.rows|);
      HitNamed(c.entries, next, forwards == !c.descending, table.rows, filter);
    }

    /** One round of the walk: the match is here, or it is the first from the next entry of the table on. */
    lemma {:induction false} RoundOf(c: TagCursor<Row>, at: nat, forwards: bool)
      requires Valid() && c == table.selected && On(c, Ok, Some(at))
      ensures !Refuses(false) && Noted(c, false) == c.atNearest && at < |c.entries|
      ensures table.position.number in plan.candidates && Admits() <==> Hit(c.entries[at], table.rows, filter)
      ensures var up, next := forwards == !c.descending, FirstAt(c, false, forwards);
              && HitFrom(c.entries, at, up, table.rows, filter)
              == (if Hit(c.entries[at], table.rows, filter) then Some(at)
                  else if c.atNearest && forwards != c.descending then HitFrom(c.entries, at, up, table.rows, filter)
                  else if next.None? then None
                  else HitFrom(c.entries, next.value, up, table.rows, filter))
              && (!(c.atNearest && forwards != c.descending) && next.Some? ==>
                    if up then at < next.value < |c.entries| else next.value < at)
    {
      hide Named, FirstAt, Planned;
      AtEntry(c, at, forwards);
      var up := forwards == !c.descending;
      HitNamed(c.entries, if up then at + 1 else at - 1, up, table.rows, filter);
      StepsOn(c.entries, at, up, |table.rows|);
    }

    lemma {:induction false} OnIs(c: TagCursor<Row>, r: GoResult, at: Option<nat>)
      requires On(c, r, at)
      ensures r != Refused && (r == Ok <==> at.Some?) && (at.Some? ==> at.value < |c.entries|)
    {
    }

    /** Walks the tag from the entry of the current record, or from an end, taking what the filter accepts. */
    method StepByTag(c: TagCursor<Row>, fromEnd: bool, forwards: bool) returns (r: GoResult)
      requires Valid() && c == table.selected && Terminates(c, fromEnd, forwards)
      modifies table`buffer, table`position, c
      ensures Valid() && (r == Refused <==> old(Refuses(fromEnd)))
      ensures r == Refused ==> table.position == old(table.position)
      ensures r != Refused ==> On(c, r, old(NextHit(c, fromEnd, forwards)))
      ensures r == Ok ==> c.atNearest == old(Noted(c, fromEnd))
    {
      assert c.Valid();
      hide FirstAt, Refuses, Noted, HitFrom, Hit, On, Planned, Table.Ready, TagCursor.Valid;
      ghost var up, hit := forwards == !c.descending, NextHit(c, fromEnd, forwards);
      ghost var at: Option<nat>;
      r, at := StepOn(c, fromEnd, forwards);
      if r != Refused { OnIs(c, r, at); }
      while r == Ok
        invariant Valid() && (r == Refused <==> old(Refuses(fromEnd)))
        invariant r == Refused ==> table.position == old(table.position)
        invariant r != Refused ==> On(c, r, at) && (r == Ok <==> at.Some?)
        invariant r != Refused ==>
                    hit == if at.None? then None else HitFrom(c.entries, at.value, up, table.rows, filter)
        invariant r == Ok ==> at.value < |c.entries| && c.atNearest == old(Noted(c, fromEnd))
        invariant r == Ok ==>
                    !c.atNearest || forwards == c.descending || Hit(c.entries[at.value], table.rows, filter)
        decreases if at.None? then 0 else if up then |c.entries| - at.value else at.value + 1
      {
        RoundOf(c, at.value, forwards);
        if table.position.number in plan.candidates && Admits() {
          return;
        }
        r, at := StepOn(c, false, forwards);
        OnIs(c, r, at);
      }
    }

    /** Any number of rounds after its first step, a walk that does not terminate is on the same record, which
        is rejected. */
    method GoesRound(c: TagCursor<Row>, fromEnd: bool, forwards: bool, rounds: nat) returns (r: GoResult, taken: bool)
      requires Valid() && c == table.selected && !Terminates(c, fromEnd, forwards)
      modifies table`buffer, table`position, c
      ensures r == Ok && !taken && table.position.number == c.entries[old(FirstAt(c, fromEnd, forwards).value)].rec
    {
      ghost var at: Option<nat>;
      r, at := StepOn(c, fromEnd, forwards);
      var done := 0;
      while done < rounds
        invariant Valid() && done <= rounds && On(c, Ok, at) && r == Ok && c.atNearest
        invariant at == old(FirstAt(c, fromEnd, forwards)) && !Hit(c.entries[at.value], table.rows, filter)
      {
        AtEntry(c, at.value, forwards);
        r, at := StepOn(c, false, forwards);
        done := done + 1;
      }
      AtEntry(c, at.value, forwards);
      taken := table.position.number in plan.candidates && Admits();
    }

    /** The first match in the tag's order, or the last. */
    method OutermostByTag(c: TagCursor<Row>, first: bool) returns (r: GoResult)
      requires Valid() && c == table.selected && Terminates(c, true, first)
      modifies this`eof, this`bof, table`buffer, table`position, c
      ensures Valid()
      ensures var hit := old(NextHit(c, true, first));
              && On(c, r, hit)
              && (r == Ok ==> RecordNumber() == c.entries[hit.value].rec && !eof && !bof)
              && (r == Ok ==> c.atNearest == old(c.atNearest))
              && (r != Ok ==> r == NoRecord && eof == first && bof == !first && RecordNumber() == 0)
    {
      eof, bof := false, false;
      r := StepByTag(c, true, first);
      r := Settle(r == Ok, first);
    }

    /** The next match in the tag's order, or the one before, from the record the table is on; at an end the
        query stays there, and without a record to start from the program throws. */
    method MoveByTag(c: TagCursor<Row>, forwards: bool) returns (r: GoResult)
      requires Valid() && c == table.selected && ((if forwards then eof else bof) || Terminates(c, false, forwards))
      modifies this`eof, this`bof, table`buffer, table`position, c
      ensures Valid()
      ensures (if forwards then old(eof) else old(bof)) ==>
                r == NoRecord && eof == old(eof) && bof == old(bof) && table.position == old(table.position)
      ensures !(if forwards then old(eof) else old(bof)) ==>
                && (r == Refused <==> old(Refuses(false)))
                && (r == Refused ==> table.position == old(table.position))
                && (r != Refused ==> On(c, r, old(NextHit(c, false, forwards))))
                && (r == Ok ==> c.atNearest == old(Noted(c, false)))
                && eof == (old(eof) || (r == NoRecord && forwards))
                && bof == (old(bof) || (r == NoRecord && !forwards))
    {
      if (if forwards then eof else bof) {
        return NoRecord;
      }
      r := StepByTag(c, false, forwards);
      if r != Refused {
        r := Settle(r == Ok, forwards);
      }
    }

    // ----- whole walks -----

    /** A walk by record number that has visited so many is on the match `hit`, or, if that is zero, at its end. */
    ghost predicate Scanning(r: GoResult, hit: nat, forwards: bool, visited: seq<nat>)
      reads this, table, table.selected
    {
      && Valid() && table.selected == null && Settled(r, hit, forwards) && hit <= |table.rows|
      && visited + (if hit == 0 then [] else [hit] + FromOn(table.rows, filter, hit, forwards))
         == FromOn(table.rows, filter, if forwards then 0 else |table.rows| + 1, forwards)
    }

    method BeginScan(forwards: bool) returns (r: GoResult, ghost hit: nat)
      requires Valid() && table.selected == null
      modifies this`eof, this`bof, table`buffer, table`position
      ensures Scanning(r, hit, forwards, []) && (r == Ok <==> hit != 0)
    {
      hide NextOf, FromOn, Query.Valid;
      ghost var start := if forwards then 0 else |table.rows| + 1;
      Unfolds(table.rows, filter, start, forwards);
      r := Outermost(forwards);
      hit := NextOf(table.rows, filter, start, forwards);
    }

    method ScanOn(forwards: bool, ghost hit: nat, visited: seq<nat>)
      returns (r: GoResult, ghost next: nat, more: seq<nat>)
      requires Scanning(Ok, hit, forwards, visited)
      modifies this`eof, this`bof, table`buffer, table`position
      ensures Scanning(r, next, forwards, more) && (r == Ok <==> next != 0)
      ensures r == Ok ==> if forwards then hit < next <= |table.rows| else next < hit
    {
      hide NextOf, FromOn, Query.Valid;
      Unfolds(table.rows, filter, hit, forwards);
      more := visited + [table.position.number];
      r := Move(forwards);
      next := NextOf(table.rows, filter, hit, forwards);
    }

    /** From one end to the other by record number: exactly what a scan accepts, or that reversed. */
    method Visit(forwards: bool) returns (visited: seq<nat>)
      requires Valid() && table.selected == null
      modifies this`eof, this`bof, table`buffer, table`position
      ensures Valid()
      ensures visited == if forwards then Scanned(table.rows, filter, |table.rows|)
                         else Reverse(Scanned(table.rows, filter, |table.rows|))
    {
      hide FromOn, Scanned, Reverse, Query.Valid, Query.Settled;
      ScanIsFrom(table.rows, filter, forwards);
      var r: GoResult;
      ghost var hit: nat;
      visited := [];
      r, hit := BeginScan(forwards);
      while r == Ok
        invariant Scanning(r, hit, forwards, visited) && (r == Ok <==> hit != 0)
        decreases r == Ok, if forwards then |table.rows| - hit else hit
      {
        r, hit, visited := ScanOn(forwards, hit, visited);
      }
    }

    /** A whole walk ends unless it goes the way the note shortens, with the note set, and there is a record to
        land on. */
    ghost predicate Ends(c: TagCursor<Row>, forwards: bool)
      reads c
    {
      !c.atNearest || forwards == c.descending || NoneInTable(c.entries, |table.rows|)
    }

    lemma {:induction false} FromTheEnd(c: TagCursor<Row>, forwards: bool)
      requires Valid() && c == table.selected && Ends(c, forwards)
      ensures var up := forwards == !c.descending;
              && Terminates(c, true, forwards)
              && NextHit(c, true, forwards)
                 == HitFrom(c.entries, if up then 0 else |c.entries| - 1, up, table.rows, filter)
      ensures NextHit(c, true, forwards).Some? ==> !c.atNearest || forwards == c.descending
    {
      var up := forwards == !c.descending;
      HitNamed(c.entries, if up then 0 else |c.entries| - 1, up, table.rows, filter);
    }

    lemma {:induction false} FromAMatch(c: TagCursor<Row>, forwards: bool)
      requires Valid() && c == table.selected && (!c.atNearest || forwards == c.descending)
      requires On(c, Ok, Some(c.index))
      ensures Terminates(c, false, forwards) && !Refuses(false) && Noted(c, false) == c.atNearest
      ensures NextHit(c, false, forwards)
           == HitFrom(c.entries, c.Target(c.index, if forwards then 1 else -1), forwards == !c.descending,
                      table.rows, filter)
    {
      AtEntry(c, c.index, forwards);
      NextIsBeside(c, forwards);
    }

    /** A walk that does not end either is on a rejected record for ever, or finds a match and, after any number of
        moves, is on it still. */
    method StaysOnMatch(c: TagCursor<Row>, forwards: bool, rounds: nat) returns (r: GoResult)
      requires Valid() && c == table.selected && !Ends(c, forwards) && Terminates(c, true, forwards)
      modifies this`eof, this`bof, table`buffer, table`position, c
      ensures r == Ok && old(FirstAt(c, true, forwards)).Some?
      ensures RecordNumber() == c.entries[old(FirstAt(c, true, forwards)).value].rec
    {
      FromTheWrongEnd(c, forwards);
      ghost var at := FirstAt(c, true, forwards).value;
      r := OutermostByTag(c, forwards);
      var done := 0;
      while done < rounds
        invariant done <= rounds && Valid() && c == table.selected && r == Ok && On(c, Ok, Some(at)) && !eof && !bof
        invariant c.atNearest && forwards != c.descending && at < |c.entries| && Hit(c.entries[at], table.rows, filter)
      {
        AtEntry(c, at, forwards);
        r := MoveByTag(c, forwards);
        done := done + 1;
      }
    }

    lemma {:induction false} FromTheWrongEnd(c: TagCursor<Row>, forwards: bool)
      requires Valid() && c == table.selected && !Ends(c, forwards)
      ensures FirstAt(c, true, forwards).Some?
      ensures Terminates(c, true, forwards) <==>
                Hit(c.entries[FirstAt(c, true, forwards).value], table.rows, filter)
      ensures Terminates(c, true, forwards) ==> NextHit(c, true, forwards) == FirstAt(c, true, forwards)
    {
      var k :| 0 <= k < |c.entries| && InTable(c.entries[k], |table.rows|);
    }

    /** What a walk visits from a match on. */
    ghost function WalkedFrom(c: TagCursor<Row>, hit: Option<nat>, forwards: bool): seq<nat>
      requires hit.Some? ==> hit.value < |c.entries|
    {
      if hit.None? then []
      else [c.entries[hit.value].rec]
           + Walked(c.entries, c.Target(hit.value, if forwards then 1 else -1), forwards == !c.descending,
                    table.rows, filter)
    }

    /** A walk whose moves all end, and that has visited so many, is on the match `hit` or has come to its end. */
    ghost predicate Visiting(c: TagCursor<Row>, r: GoResult, hit: Option<nat>, forwards: bool, visited: seq<nat>)
      reads this, table, table.selected, c
    {
      && Valid() && c == table.selected && On(c, r, hit)
      && (r == Ok ==> !eof && !bof && (!c.atNearest || forwards == c.descending))
      && visited + WalkedFrom(c, hit, forwards)
         == Restricted(InOrder(c.entries, forwards == c.descending), table.rows, filter)
    }

    method BeginVisit(c: TagCursor<Row>, forwards: bool) returns (r: GoResult, ghost hit: Option<nat>)
      requires Valid() && c == table.selected && Ends(c, forwards)
      modifies this`eof, this`bof, table`buffer, table`position, c
      ensures Visiting(c, r, hit, forwards, []) && (r == Ok <==> hit.Some?)
    {
      hide FirstAt, Noted, HitFrom, Restricted;
      FromTheEnd(c, forwards);
      WalkedInOrder(c.entries, c.descending, forwards, table.rows, filter);
      hit := NextHit(c, true, forwards);
      r := OutermostByTag(c, forwards);
    }

    method GoOn(c: TagCursor<Row>, forwards: bool, ghost hit: nat, ghost visited: seq<nat>)
      returns (r: GoResult, ghost next: Option<nat>)
      requires Visiting(c, Ok, Some(hit), forwards, visited)
      modifies this`eof, this`bof, table`buffer, table`position, c
      ensures hit < |c.entries| && Visiting(c, r, next, forwards, visited + [c.entries[hit].rec])
      ensures r == Ok <==> next.Some?
      ensures next.Some? ==> if forwards == !c.descending then hit < next.value else next.value < hit
    {
      hide FirstAt, Noted, HitFrom, NextHit, Restricted;
      FromAMatch(c, forwards);
      next := NextHit(c, false, forwards);
      assert visited + WalkedFrom(c, Some(hit), forwards)
          == visited + [c.entries[hit].rec] + WalkedFrom(c, next, forwards);
      r := MoveByTag(c, forwards);
    }

    lemma {:induction false} VisitingIs(c: TagCursor<Row>, r: GoResult, hit: Option<nat>, forwards: bool,
                                        visited: seq<nat>)
      requires Visiting(c, r, hit, forwards, visited)
      ensures Valid() && (r == Ok <==> hit.Some?)
      ensures hit.Some? ==> hit.value < |c.entries| && table.position.number == c.entries[hit.value].rec
      ensures hit.None? ==> visited == Restricted(InOrder(c.entries, forwards == c.descending), table.rows, filter)
    {
      assert hit.None? ==> visited + [] == visited;
    }

    /** From one end to the other in the tag's order: that order restricted to what the filter accepts. */
    method VisitByTag(c: TagCursor<Row>, forwards: bool) returns (visited: seq<nat>)
      requires Valid() && c == table.selected && Ends(c, forwards)
      modifies this`eof, this`bof, table`buffer, table`position, c
      ensures Valid() && visited == Restricted(InOrder(c.entries, forwards == c.descending), table.rows, filter)
    {
      hide *;
      ghost var up := forwards == !c.descending;
      ghost var hit: Option<nat>;
      var r: GoResult;
      visited := [];
      r, hit := BeginVisit(c, forwards);
      while r == Ok
        invariant Visiting(c, r, hit, forwards, visited) && (r == Ok <==> hit.Some?)
        decreases if hit.None? then 0 else 1, if hit.None? then 0 else if up then |c.entries| - hit.value else hit.value
      {
        VisitingIs(c, r, hit, forwards, visited);
        var was := table.position.number;
        r, hit := GoOn(c, forwards, hit.value, visited);
        visited := visited + [was];
        VisitingIs(c, r, hit, forwards, visited);
      }
      VisitingIs(c, r, hit, forwards, visited);
    }
  }

  /** The first move of a walk finds record 1, with the note set, and so does every one after it. */
  method WalksInPlace() returns (q: Query, c: TagCursor<Row>)
    ensures q.Valid() && c == q.table.selected && c.entries == [Entry(5, 1), Entry(6, 2)] && !c.descending
    ensures !q.Ends(c, true) && q.Terminates(c, true, true) && Accepts(q.table.rows, q.filter, 2)
  {
    var t;
    t, c := OffTheTag();
    var go := t.StepIndexed(c, 1);
    q := new Query(t, Plan({1, 2, 3}, false, row => true), row => true);
    assert Named(c.entries, 0, true, 3) == Some(0);
  }

  /** From record 3, which the tag does not list, the walk forwards meets record 1, which the filter rejects. */
  method NeverEnds() returns (q: Query, c: TagCursor<Row>)
    ensures q.Valid() && c == q.table.selected && c.entries == [Entry(5, 1), Entry(6, 2)] && !c.descending
    ensures q.table.position.number == 3 && !q.eof && !q.bof && !q.Terminates(c, false, true)
    ensures Accepts(q.table.rows, q.filter, 2)
  {
    var t;
    t, c := OffTheTag();
    q := new Query(t, Plan({2, 3}, false, row => true), row => row != []);
  }

  /** An entry whose record the filter accepts. */
  ghost predicate Hit(e: Entry, rows: seq<Row>, filter: Row -> bool) {
    Accepts(rows, filter, e.rec)
  }

  /** The first such entry from `i` on, going up or down. */
  ghost function HitFrom(es: seq<Entry>, i: int, up: bool, rows: seq<Row>, filter: Row -> bool): (r: Option<nat>)
    ensures r.Some? ==> r.value < |es| && Hit(es[r.value], rows, filter) && (if up then i <= r.value else r.value <= i)
    decreases if up then |es| - i else i
  {
    if i < 0 then if up then HitFrom(es, i + 1, up, rows, filter) else None
    else if i >= |es| then if up then None else HitFrom(es, i - 1, up, rows, filter)
    else if Hit(es[i], rows, filter) then Some(i)
    else HitFrom(es, if up then i + 1 else i - 1, up, rows, filter)
  }

  /** Entries that name no record of the table are passed over. */
  lemma {:induction false} HitNamed(es: seq<Entry>, i: int, up: bool, rows: seq<Row>, filter: Row -> bool)
    ensures var at := Named(es, i, up, |rows|);
            HitFrom(es, i, up, rows, filter) == if at.None? then None else HitFrom(es, at.value, up, rows, filter)
    decreases if up then |es| - i else i
  {
    if 0 <= i < |es| && !InTable(es[i], |rows|) {
      HitNamed(es, if up then i + 1 else i - 1, up, rows, filter);
    } else if i < 0 && up {
      HitNamed(es, i + 1, up, rows, filter);
    } else if i >= |es| && !up {
      HitNamed(es, i - 1, up, rows, filter);
    }
  }

  lemma {:induction false} NamedInside(es: seq<Entry>, i: int, up: bool, count: nat)
    ensures up && i >= |es| ==> Named(es, i, up, count) == None
    ensures !up && i < 0 ==> Named(es, i, up, count) == None
    ensures (up && i < 0) || (!up && i >= |es|) ==>
              Named(es, i, up, count) == Named(es, if up then 0 else |es| - 1, up, count)
    decreases if up then |es| - i else i
  {
    if up && i < 0 { NamedInside(es, i + 1, up, count); }
    if !up && i >= |es| { NamedInside(es, i - 1, up, count); }
  }

  lemma {:induction false} StepsOn(es: seq<Entry>, i: nat, up: bool, count: nat)
    ensures var at := Named(es, if up then i + 1 else i - 1, up, count);
            at.Some? ==> if up then i < at.value else at.value < i
  {
  }

  /** The candidates and the residual check decide the entry the walk is at. */
  lemma {:induction false} HitHere(table: Table, plan: Plan, filter: Row -> bool, e: Entry)
    requires Planned(table, plan, filter) && InTable(e, |table.rows|)
    ensures Hit(e, table.rows, filter)
            <==> e.rec in plan.candidates && (!plan.hasWork || plan.residual(table.rows[e.rec - 1]))
  {
    assert filter(table.rows[e.rec - 1]) <==> Hit(e, table.rows, filter);
  }

  /** What a walk in a tag's order visits, from the entry at `i` on. */
  ghost function Walked(es: seq<Entry>, i: int, up: bool, rows: seq<Row>, filter: Row -> bool): seq<nat>
    requires -1 <= i <= |es|
    decreases if up then |es| - i else i + 1
  {
    var hit := HitFrom(es, i, up, rows, filter);
    if hit.None? then []
    else [es[hit.value].rec] + Walked(es, if up then hit.value + 1 else hit.value - 1, up, rows, filter)
  }

  /** The tag's order restricted to the records the filter accepts. */
  ghost function Restricted(es: seq<Entry>, rows: seq<Row>, filter: Row -> bool): seq<nat> {
    if es == [] then []
    else (if Hit(es[0], rows, filter) then [es[0].rec] else []) + Restricted(es[1..], rows, filter)
  }

  /** A walk upwards visits the tag's entries from there on, restricted to what the filter accepts. */
  lemma {:induction false} WalkedUp(es: seq<Entry>, i: nat, rows: seq<Row>, filter: Row -> bool)
    requires i <= |es|
    ensures Walked(es, i, true, rows, filter) == Restricted(es[i..], rows, filter)
    decreases |es| - i
  {
    if i < |es| {
      assert es[i..][1..] == es[i + 1..];
      WalkedUp(es, i + 1, rows, filter);
    }
  }

  /** A walk downwards visits the entries up to there from the last to the first. */
  lemma {:induction false} WalkedDown(es: seq<Entry>, i: int, rows: seq<Row>, filter: Row -> bool)
    requires -1 <= i < |es|
    ensures Walked(es, i, false, rows, filter) == Restricted(InOrder(es[..i + 1], true), rows, filter)
    decreases i + 1
  {
    if i >= 0 {
      var order := InOrder(es[..i + 1], true);
      assert order[0] == es[i];
      var rest := InOrder(es[..i], true);
      forall k | 0 <= k < i ensures order[1..][k] == rest[k] {
        assert order[k + 1] == es[..i + 1][i - 1 - k] && rest[k] == es[..i][i - 1 - k];
      }
      assert order[1..] == rest;
      WalkedDown(es, i - 1, rows, filter);
    }
  }

  /** A whole walk in a tag's order, in either direction, visits the tag's order restricted to what the
      filter accepts; backwards it is the same entries in the opposite order. */
  lemma {:induction false} WalkedInOrder(es: seq<Entry>, descending: bool, forwards: bool, rows: seq<Row>,
                                         filter: Row -> bool)
    ensures Walked(es, if forwards == !descending then 0 else |es| - 1, forwards == !descending, rows, filter)
         == Restricted(InOrder(es, forwards == descending), rows, filter)
  {
    if forwards == !descending {
      WalkedUp(es, 0, rows, filter);
      assert es[0..] == es;
    } else {
      WalkedDown(es, |es| - 1, rows, filter);
      assert es[..|es|] == es;
    }
  }

  ghost predicate Accepts(rows: seq<Row>, filter: Row -> bool, r: int) {
    1 <= r <= |rows| && filter(rows[r - 1])
  }

  /** The records a scan of the first `n` accepts, in increasing order. */
  ghost function Scanned(rows: seq<Row>, filter: Row -> bool, n: nat): seq<nat>
    requires n <= |rows|
  {
    if n == 0 then []
    else if Accepts(rows, filter, n) then Scanned(rows, filter, n - 1) + [n] else Scanned(rows, filter, n - 1)
  }

  /** The first accepted record after a number, and the last one before it; zero if there is none. */
  ghost function FirstAfter(rows: seq<Row>, filter: Row -> bool, from: int): nat
    decreases |rows| - from
  {
    if from < 0 then FirstAfter(rows, filter, 0)
    else if from >= |rows| then 0
    else if Accepts(rows, filter, from + 1) then from + 1
    else FirstAfter(rows, filter, from + 1)
  }

  ghost function LastBefore(rows: seq<Row>, filter: Row -> bool, from: int): nat
    decreases from
  {
    if from > |rows| + 1 then LastBefore(rows, filter, |rows| + 1)
    else if from <= 1 then 0
    else if Accepts(rows, filter, from - 1) then from - 1
    else LastBefore(rows, filter, from - 1)
  }

  /** Passing over records that are not candidates passes over no match. */
  lemma {:induction false} SkipTo(table: Table, plan: Plan, filter: Row -> bool, from: int, to: nat)
    requires Planned(table, plan, filter)
    requires to != 0 ==> from < to <= |table.rows|
    requires forall k :: 1 <= k <= |table.rows| && from < k && (to != 0 ==> k < to) ==> k !in plan.candidates
    ensures FirstAfter(table.rows, filter, from) == if to == 0 then 0 else FirstAfter(table.rows, filter, to - 1)
    decreases |table.rows| - from
  {
    if from < 0 {
      SkipTo(table, plan, filter, 0, to);
    } else if from < |table.rows| && from + 1 != to {
      assert from + 1 !in plan.candidates && !filter(table.rows[from + 1 - 1]);
      SkipTo(table, plan, filter, from + 1, to);
    }
  }

  lemma {:induction false} LastBeforeEnd(rows: seq<Row>, filter: Row -> bool, from: int)
    ensures var last := if from - 1 < |rows| then from - 1 else |rows|;
            LastBefore(rows, filter, from) == LastBefore(rows, filter, last + 1)
  {
  }

  lemma {:induction false} NoneBetween(table: Table, plan: Plan, filter: Row -> bool, from: nat, to: nat)
    requires Planned(table, plan, filter) && from <= |table.rows|
    requires to != 0 ==> from < to <= |table.rows|
    requires forall k :: 1 <= k <= |table.rows| && from < k && (to != 0 ==> k < to) ==> k !in plan.candidates
    ensures Scanned(table.rows, filter, from) == Scanned(table.rows, filter, if to == 0 then |table.rows| else to - 1)
    decreases |table.rows| - from
  {
    if from < |table.rows| && from + 1 != to {
      assert from + 1 !in plan.candidates && !filter(table.rows[from + 1 - 1]);
      NoneBetween(table, plan, filter, from + 1, to);
    }
  }

  // ----- whole walks -----

  /** What repeated forward moves visit from a record on, and repeated backward moves. */
  ghost function Forwards(rows: seq<Row>, filter: Row -> bool, from: nat): seq<nat>
    requires from <= |rows|
    decreases |rows| - from
  {
    FirstAfterIs(rows, filter, from);
    var hit := FirstAfter(rows, filter, from);
    if hit == 0 then [] else [hit] + Forwards(rows, filter, hit)
  }

  ghost function Backwards(rows: seq<Row>, filter: Row -> bool, from: nat): seq<nat>
    requires from <= |rows| + 1
    decreases from
  {
    LastBeforeIs(rows, filter, from);
    var hit := LastBefore(rows, filter, from);
    if hit == 0 then [] else [hit] + Backwards(rows, filter, hit)
  }

  /** The next match in one direction, and what repeated moves visit. */
  ghost function NextOf(rows: seq<Row>, filter: Row -> bool, from: int, forwards: bool): nat {
    if forwards then FirstAfter(rows, filter, from) else LastBefore(rows, filter, from)
  }

  ghost function FromOn(rows: seq<Row>, filter: Row -> bool, from: nat, forwards: bool): seq<nat>
    requires from <= |rows| + 1 && (forwards ==> from <= |rows|)
  {
    if forwards then Forwards(rows, filter, from) else Backwards(rows, filter, from)
  }

  lemma {:induction false} Unfolds(rows: seq<Row>, filter: Row -> bool, from: nat, forwards: bool)
    requires from <= |rows| + 1 && (forwards ==> from <= |rows|)
    ensures var hit := NextOf(rows, filter, from, forwards);
            && hit <= |rows| && (hit != 0 ==> if forwards then from < hit else hit < from)
            && FromOn(rows, filter, from, forwards)
               == if hit == 0 then [] else [hit] + FromOn(rows, filter, hit, forwards)
  {
    if forwards {
      FirstAfterIs(rows, filter, from);
    } else {
      LastBeforeIs(rows, filter, from);
    }
  }

  lemma {:induction false} ScanIsFrom(rows: seq<Row>, filter: Row -> bool, forwards: bool)
    ensures FromOn(rows, filter, if forwards then 0 else |rows| + 1, forwards)
         == if forwards then Scanned(rows, filter, |rows|) else Reverse(Scanned(rows, filter, |rows|))
  {
    ForwardsIsScan(rows, filter, 0);
    BackwardsIsScan(rows, filter, |rows| + 1);
  }

  lemma {:induction false} FirstAfterIs(rows: seq<Row>, filter: Row -> bool, from: nat)
    requires from <= |rows|
    ensures var hit := FirstAfter(rows, filter, from);
            && (hit != 0 ==> from < hit <= |rows| && Accepts(rows, filter, hit))
            && (forall k :: from < k && (hit != 0 ==> k < hit) ==> !Accepts(rows, filter, k))
    decreases |rows| - from
  {
    if from < |rows| { FirstAfterIs(rows, filter, from + 1); }
  }

  lemma {:induction false} LastBeforeIs(rows: seq<Row>, filter: Row -> bool, from: nat)
    requires from <= |rows| + 1
    ensures var hit := LastBefore(rows, filter, from);
            && (hit != 0 ==> hit < from && Accepts(rows, filter, hit))
            && (forall k :: hit < k < from ==> !Accepts(rows, filter, k))
  {
    if from > 1 { LastBeforeIs(rows, filter, from - 1); }
  }

  /** A forward walk visits exactly what a scan accepts, each record once and in increasing order. */
  lemma {:induction false} ForwardsIsScan(rows: seq<Row>, filter: Row -> bool, from: nat)
    requires from <= |rows|
    ensures Scanned(rows, filter, from) + Forwards(rows, filter, from) == Scanned(rows, filter, |rows|)
    decreases |rows| - from
  {
    FirstAfterIs(rows, filter, from);
    var hit := FirstAfter(rows, filter, from);
    if hit == 0 {
      ScannedSame(rows, filter, from, |rows|);
    } else {
      ScannedSame(rows, filter, from, hit - 1);
      ForwardsIsScan(rows, filter, hit);
      assert Scanned(rows, filter, from) + ([hit] + Forwards(rows, filter, hit))
          == Scanned(rows, filter, hit) + Forwards(rows, filter, hit);
    }
  }

  lemma {:induction false} ScannedSame(rows: seq<Row>, filter: Row -> bool, m: nat, n: nat)
    requires m <= n <= |rows| && forall k :: m < k <= n ==> !Accepts(rows, filter, k)
    ensures Scanned(rows, filter, m) == Scanned(rows, filter, n)
  {
    if m < n { ScannedSame(rows, filter, m, n - 1); }
  }

  ghost function Reverse(s: seq<nat>): seq<nat> {
    if s == [] then [] else [s[|s| - 1]] + Reverse(s[..|s| - 1])
  }

  /** A backward walk visits the same records in the opposite order. */
  lemma {:induction false} BackwardsIsScan(rows: seq<Row>, filter: Row -> bool, from: nat)
    requires from <= |rows| + 1
    ensures Backwards(rows, filter, from) == Reverse(Scanned(rows, filter, if from == 0 then 0 else from - 1))
    decreases from
  {
    LastBeforeIs(rows, filter, from);
    var hit := LastBefore(rows, filter, from);
    if from == 0 {
    } else if hit == 0 {
      ScannedSame(rows, filter, 0, from - 1);
    } else {
      ScannedSame(rows, filter, hit, from - 1);
      BackwardsIsScan(rows, filter, hit);
      var s := Scanned(rows, filter, hit);
      assert s[..|s| - 1] == Scanned(rows, filter, hit - 1);
    }
  }

  /** The scan lists a record exactly when the filter accepts it, and lists them in increasing order. */
  lemma {:induction false} ScannedExactly(rows: seq<Row>, filter: Row -> bool, n: nat)
    requires n <= |rows|
    ensures forall r :: r in Scanned(rows, filter, n) <==> r <= n && Accepts(rows, filter, r)
    ensures forall i, j :: 0 <= i < j < |Scanned(rows, filter, n)| ==>
              Scanned(rows, filter, n)[i] < Scanned(rows, filter, n)[j]
  {
    if n > 0 {
      ScannedExactly(rows, filter, n - 1);
      var s := Scanned(rows, filter, n - 1);
      assert forall i :: 0 <= i < |s| ==> s[i] in s;
    }
  }

  /** What the planner promises: the candidates include every match, and the residual check is right for
      them; where there is nothing left to check, every candidate is a match. */
  ghost predicate Planned(table: Table, plan: Plan, filter: Row -> bool) {
    forall r :: 1 <= r <= |table.rows| ==>
      && (filter(table.rows[r - 1]) ==> r in plan.candidates)
      && (r in plan.candidates ==> if plan.hasWork then plan.residual(table.rows[r - 1]) == filter(table.rows[r - 1])
                                   else filter(table.rows[r - 1]))
  }
}