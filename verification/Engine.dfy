/** An engine that opens tables, and is closed while other threads open and close them.

    A table is built outside the lock, listed inside it, and closed outside it again, so that closing the
    engine can come between any two of these.  Each step of a thread is one access to what is shared. */
module Engines {

  /** `marked` is the table's own note that it is closed; `returned` records that a caller was given it. */
  datatype Table = Table(marked: bool, disposed: bool, returned: bool)

  datatype Phase = Test | Mark | Files | Forget

  /** Where a thread stands.  `Closing` goes through a list of tables, the one at hand being `t`. */
  datatype Pc =
    | Idle
    | OpenCheck
    | OpenBuild
    | OpenList(t: nat)
    | Closing(t: nat, phase: Phase, rest: seq<nat>)
    | Dispose

  /** What the threads share. */
  datatype Shared = Shared(tables: seq<Table>, open: seq<nat>, closed: bool)

  datatype State = State(v: Shared, threads: seq<Pc>)

  function After(rest: seq<nat>): (pc: Pc)
    ensures pc.Closing? ==> pc.t in rest && forall t :: t in pc.rest ==> t in rest
  {
    if rest == [] then Idle else Closing(rest[0], Test, rest[1..])
  }

  function Remove(list: seq<nat>, t: nat): (r: seq<nat>)
    ensures forall x :: x in r ==> x in list
    ensures forall x :: x in list && x != t ==> x in r
  {
    if list == [] then []
    else if list[0] == t then list[1..]
    else
      var r := Remove(list[1..], t);
      assert forall x :: x in list[1..] ==> x in list;
      [list[0]] + r
  }

  predicate Within(pc: Pc, n: nat) {
    (pc.OpenList? ==> pc.t < n) && (pc.Closing? ==> pc.t < n && forall t :: t in pc.rest ==> t < n)
  }

  /** What a thread may begin: opening a table, closing one it was given, closing the engine. */
  predicate Entry(v: Shared, pc: Pc) {
    || pc.OpenCheck? || pc.Dispose?
    || (pc.Closing? && pc.t < |v.tables| && v.tables[pc.t].returned && pc.phase == Test && pc.rest == [])
  }

  datatype Step = Step(v: Shared, pc: Pc)

  /** One step of a thread at `pc`; `choice` is the operation an idle thread begins. */
  function Act(v: Shared, pc: Pc, choice: Pc): Step
    requires Within(pc, |v.tables|)
  {
    match pc
    case Idle => Step(v, if Entry(v, choice) then choice else Idle)
    case OpenCheck => Step(v, if v.closed then Idle else OpenBuild)
    case OpenBuild => Step(v.(tables := v.tables + [Table(false, false, false)]), OpenList(|v.tables|))
    case OpenList(t) =>
      if v.closed then Step(v, Closing(t, Test, []))
      else Step(v.(open := v.open + [t], tables := v.tables[t := v.tables[t].(returned := true)]), Idle)
    case Closing(t, phase, rest) => (
      match phase
      case Test => Step(v, if v.tables[t].marked then After(rest) else Closing(t, Mark, rest))
      case Mark => Step(v.(tables := v.tables[t := v.tables[t].(marked := true)]), Closing(t, Files, rest))
      case Files => Step(v.(tables := v.tables[t := v.tables[t].(disposed := true)]), Closing(t, Forget, rest))
      case Forget => Step(v.(open := Remove(v.open, t)), After(rest))
    )
    case Dispose =>
      if v.closed then Step(v, Idle) else Step(v.(closed := true, open := []), After(v.open))
  }

  predicate Bounded(s: State) {
    && (forall t :: t in s.v.open ==> t < |s.v.tables|)
    && (forall i :: 0 <= i < |s.threads| ==> Within(s.threads[i], |s.v.tables|))
  }

  function Next(s: State, i: nat, choice: Pc): State
    requires Bounded(s) && i < |s.threads|
  {
    var step := Act(s.v, s.threads[i], choice);
    State(step.v, s.threads[i := step.pc])
  }

  // ----- what every state keeps -----

  /** The thread will yet list the table or close it. */
  predicate Owes(pc: Pc, t: nat) {
    || pc == OpenList(t)
    || (pc.Closing? && ((pc.t == t && pc.phase != Forget) || t in pc.rest))
  }

  predicate Mentions(pc: Pc, t: nat) {
    pc == OpenList(t) || (pc.Closing? && (pc.t == t || t in pc.rest))
  }

  ghost predicate Owed(s: State, t: nat) {
    exists i :: 0 <= i < |s.threads| && Owes(s.threads[i], t)
  }

  predicate At(pc: Pc, t: nat, phase: Phase) {
    pc.Closing? && pc.t == t && pc.phase == phase
  }

  ghost predicate In(s: State, t: nat, phase: Phase) {
    exists i :: 0 <= i < |s.threads| && At(s.threads[i], t, phase)
  }

  /** A table is listed, or disposed, or some thread will see to it. */
  ghost predicate Kept(s: State, t: nat)
    requires t < |s.v.tables|
  {
    && (s.v.tables[t].disposed || t in s.v.open || Owed(s, t))
    && (s.v.tables[t].marked ==> s.v.tables[t].disposed || In(s, t, Files))
    && (t in s.v.open ==> s.v.tables[t].returned && !s.v.closed)
    && (t in s.v.open && s.v.tables[t].disposed ==> In(s, t, Forget))
  }

  /** Only the thread that built a table knows of it before it is returned. */
  ghost predicate Private(s: State, t: nat, i: nat, j: nat)
    requires t < |s.v.tables| && i < |s.threads| && j < |s.threads|
  {
    && (Mentions(s.threads[i], t) && Mentions(s.threads[j], t) && i != j ==> s.v.tables[t].returned)
    && (s.threads[i] == OpenList(t) ==> !s.v.tables[t].returned && !s.v.tables[t].disposed && !s.v.tables[t].marked)
    && (At(s.threads[i], t, Forget) ==> s.v.tables[t].disposed)
  }

  predicate NoRepeats(list: seq<nat>) {
    forall i, j :: 0 <= i < j < |list| ==> list[i] != list[j]
  }

  ghost predicate Inv(s: State) {
    && Bounded(s) && NoRepeats(s.v.open)
    && (forall t :: 0 <= t < |s.v.tables| ==> Kept(s, t))
    && (forall t, i, j :: 0 <= t < |s.v.tables| && 0 <= i < |s.threads| && 0 <= j < |s.threads| ==> Private(s, t, i, j))
  }

  // ----- what one step does -----

  lemma {:induction false} RemoveOnce(list: seq<nat>, t: nat)
    requires NoRepeats(list)
    ensures NoRepeats(Remove(list, t)) && t !in Remove(list, t)
  {
    if list != [] {
      var rest := list[1..];
      assert forall i :: 0 <= i < |rest| ==> rest[i] == list[i + 1];
      if list[0] != t {
        RemoveOnce(rest, t);
        var r := Remove(rest, t);
        assert forall i :: 0 < i <= |r| ==> ([list[0]] + r)[i] == r[i - 1];
        assert list[0] !in r;
      }
    }
  }

  lemma {:induction false} ActWithin(v: Shared, pc: Pc, choice: Pc)
    requires Within(pc, |v.tables|) && forall t :: t in v.open ==> t < |v.tables|
    ensures var step := Act(v, pc, choice);
            && |v.tables| <= |step.v.tables| && Within(step.pc, |step.v.tables|)
            && forall t :: t in step.v.open ==> t < |step.v.tables|
  {
  }

  lemma {:induction false} ActTable(v: Shared, pc: Pc, choice: Pc, t: nat)
    requires Within(pc, |v.tables|) && t < |v.tables|
    ensures var step := Act(v, pc, choice);
            && t < |step.v.tables|
            && step.v.tables[t].returned == (v.tables[t].returned || (pc == OpenList(t) && !v.closed))
            && step.v.tables[t].marked == (v.tables[t].marked || At(pc, t, Mark))
            && step.v.tables[t].disposed == (v.tables[t].disposed || At(pc, t, Files))
            && (v.closed ==> step.v.closed)
  {
  }

  lemma {:induction false} ActOpen(v: Shared, pc: Pc, choice: Pc, t: nat)
    requires Within(pc, |v.tables|)
    ensures var step := Act(v, pc, choice);
            && (t in v.open && t !in step.v.open ==>
                  At(pc, t, Forget) || (pc.Dispose? && Owes(step.pc, t) && step.v.closed))
            && (t in step.v.open ==>
                  (t in v.open && (v.closed <==> step.v.closed)) || (pc == OpenList(t) && !step.v.closed))
            && (pc == OpenList(t) && !v.closed ==> t in step.v.open)
  {
  }

  lemma {:induction false} ActOwes(v: Shared, pc: Pc, choice: Pc, t: nat)
    requires Within(pc, |v.tables|) && Owes(pc, t)
    ensures var step := Act(v, pc, choice);
            || Owes(step.pc, t) || (pc == OpenList(t) && !v.closed)
            || (At(pc, t, Test) && t < |v.tables| && v.tables[t].marked) || At(pc, t, Files)
  {
  }

  lemma {:induction false} ActMentions(v: Shared, pc: Pc, choice: Pc, t: nat)
    requires Within(pc, |v.tables|)
    ensures var step := Act(v, pc, choice);
            && (Mentions(step.pc, t) ==>
                  || Mentions(pc, t) || (pc.OpenBuild? && t == |v.tables|)
                  || (pc.Idle? && t < |v.tables| && v.tables[t].returned) || (pc.Dispose? && t in v.open))
            && (step.pc == OpenList(t) ==> pc.OpenBuild? && t == |v.tables|)
            && (At(pc, t, Mark) ==> At(step.pc, t, Files)) && (At(pc, t, Files) ==> At(step.pc, t, Forget))
  {
  }

  // ----- every step of every thread -----

  lemma {:induction false} StepFrame(s: State, i: nat, choice: Pc)
    requires Bounded(s) && i < |s.threads|
    ensures var s' := Next(s, i, choice);
            && Bounded(s') && |s'.threads| == |s.threads| && |s.v.tables| <= |s'.v.tables|
            && s'.v == Act(s.v, s.threads[i], choice).v && s'.threads[i] == Act(s.v, s.threads[i], choice).pc
            && (forall j :: 0 <= j < |s.threads| && j != i ==> s'.threads[j] == s.threads[j])
            && (|s.v.tables| < |s'.v.tables| ==> s.threads[i].OpenBuild?)
  {
    hide Act;
    ActWithin(s.v, s.threads[i], choice);
    ActGrows(s.v, s.threads[i], choice);
  }

  lemma {:induction false} ActGrows(v: Shared, pc: Pc, choice: Pc)
    requires Within(pc, |v.tables|)
    ensures var step := Act(v, pc, choice);
            && (|step.v.tables| != |v.tables| ==> pc.OpenBuild?)
            && (pc.OpenBuild? ==>
                  && step.v.tables == v.tables + [Table(false, false, false)] && step.pc == OpenList(|v.tables|)
                  && step.v.open == v.open)
  {
  }

  /** A thread other than the one that moves still owes what it owed, and stands where it stood. */
  lemma {:induction false} OthersStay(s: State, i: nat, choice: Pc, t: nat, phase: Phase)
    requires Bounded(s) && i < |s.threads|
    ensures var s' := Next(s, i, choice);
            && (Owed(s, t) && !Owes(s.threads[i], t) ==> Owed(s', t))
            && (In(s, t, phase) && !At(s.threads[i], t, phase) ==> In(s', t, phase))
            && (Owes(Act(s.v, s.threads[i], choice).pc, t) ==> Owed(s', t))
            && (At(Act(s.v, s.threads[i], choice).pc, t, phase) ==> In(s', t, phase))
  {
    hide Act, Owes, At;
    StepFrame(s, i, choice);
    var s' := Next(s, i, choice);
    if Owed(s, t) {
      var j :| 0 <= j < |s.threads| && Owes(s.threads[j], t);
      assert j == i || Owes(s'.threads[j], t);
    }
    if In(s, t, phase) {
      var j :| 0 <= j < |s.threads| && At(s.threads[j], t, phase);
      assert j == i || At(s'.threads[j], t, phase);
    }
    assert s'.threads[i] == Act(s.v, s.threads[i], choice).pc;
  }

  /** A thread at the files of a table owes it. */
  lemma {:induction false} FilesOwe(s: State, t: nat)
    requires In(s, t, Files)
    ensures Owed(s, t)
  {
    var j :| 0 <= j < |s.threads| && At(s.threads[j], t, Files);
    assert Owes(s.threads[j], t);
  }

  lemma {:induction false} StepKept(s: State, i: nat, choice: Pc, t: nat)
    requires Inv(s) && i < |s.threads| && t < |s.v.tables|
    ensures var s' := Next(s, i, choice); t < |s'.v.tables| && Kept(s', t)
  {
    hide Act, Mentions, Owed, In;
    var pc := s.threads[i];
    StepFrame(s, i, choice);
    ActTable(s.v, pc, choice, t);
    ActOpen(s.v, pc, choice, t);
    if Owes(pc, t) { ActOwes(s.v, pc, choice, t); }
    ActMentions(s.v, pc, choice, t);
    OthersStay(s, i, choice, t, Files);
    OthersStay(s, i, choice, t, Forget);
    assert Kept(s, t) && Private(s, t, i, i);
    if In(s, t, Files) { FilesOwe(s, t); }
    if In(Next(s, i, choice), t, Files) { FilesOwe(Next(s, i, choice), t); }
    if At(pc, t, Forget) { RemoveOnce(s.v.open, t); ForgetRemoves(s.v, pc, choice); }
  }

  lemma {:induction false} ForgetRemoves(v: Shared, pc: Pc, choice: Pc)
    requires Within(pc, |v.tables|) && pc.Closing? && pc.phase == Forget
    ensures Act(v, pc, choice).v.open == Remove(v.open, pc.t)
  {
  }

  lemma {:induction false} StepPrivate(s: State, i: nat, choice: Pc, t: nat, j: nat, k: nat)
    requires Inv(s) && i < |s.threads| && t < |s.v.tables| && j < |s.threads| && k < |s.threads|
    ensures var s' := Next(s, i, choice); t < |s'.v.tables| && |s'.threads| == |s.threads| && Private(s', t, j, k)
  {
    hide Act, Mentions, Owes;
    var pc := s.threads[i];
    StepFrame(s, i, choice);
    ActTable(s.v, pc, choice, t);
    ActMentions(s.v, pc, choice, t);
    ActForget(s.v, pc, choice, t);
    assert Kept(s, t);
    assert Private(s, t, j, k) && Private(s, t, k, j);
    assert Private(s, t, i, j) && Private(s, t, j, i) && Private(s, t, i, k);
    MentionsOwn(pc, t);
    MentionsOwn(s.threads[j], t);
  }

  lemma {:induction false} MentionsOwn(pc: Pc, t: nat)
    ensures pc == OpenList(t) || At(pc, t, Mark) || At(pc, t, Files) || At(pc, t, Forget) ==> Mentions(pc, t)
    ensures Owes(pc, t) ==> Mentions(pc, t)
  {
  }

  lemma {:induction false} ActForget(v: Shared, pc: Pc, choice: Pc, t: nat)
    requires Within(pc, |v.tables|)
    ensures At(Act(v, pc, choice).pc, t, Forget) ==> At(pc, t, Files)
  {
  }

  /** A table that has just been built is known to its thread alone. */
  lemma {:induction false} StepBuilt(s: State, i: nat, choice: Pc, t: nat, j: nat, k: nat)
    requires Inv(s) && i < |s.threads| && j < |s.threads| && k < |s.threads|
    requires |s.v.tables| <= t < |Next(s, i, choice).v.tables|
    ensures var s' := Next(s, i, choice); |s'.threads| == |s.threads| && Kept(s', t) && Private(s', t, j, k)
  {
    hide Act;
    StepFrame(s, i, choice);
    ActGrows(s.v, s.threads[i], choice);
    var s' := Next(s, i, choice);
    assert Owes(s'.threads[i], t);
    assert j != i ==> Within(s.threads[j], |s.v.tables|);
    assert k != i ==> Within(s.threads[k], |s.v.tables|);
  }

  lemma {:induction false} ActNoRepeats(v: Shared, pc: Pc, choice: Pc)
    requires Within(pc, |v.tables|) && NoRepeats(v.open) && (pc.OpenList? ==> pc.t !in v.open)
    ensures NoRepeats(Act(v, pc, choice).v.open)
  {
    if pc.Closing? { RemoveOnce(v.open, pc.t); }
  }

  /** The invariant holds after every step of every thread. */
  lemma {:induction false} StepKeeps(s: State, i: nat, choice: Pc)
    requires Inv(s) && i < |s.threads|
    ensures Inv(Next(s, i, choice))
  {
    hide Act, Kept, Private, Next;
    var s' := Next(s, i, choice);
    StepFrame(s, i, choice);
    if s.threads[i].OpenList? { Unlisted(s, i); }
    ActNoRepeats(s.v, s.threads[i], choice);
    forall t | 0 <= t < |s'.v.tables| ensures Kept(s', t) {
      if t < |s.v.tables| { StepKept(s, i, choice, t); } else { StepBuilt(s, i, choice, t, i, i); }
    }
    forall t, j, k | 0 <= t < |s'.v.tables| && 0 <= j < |s'.threads| && 0 <= k < |s'.threads|
      ensures Private(s', t, j, k)
    {
      if t < |s.v.tables| { StepPrivate(s, i, choice, t, j, k); } else { StepBuilt(s, i, choice, t, j, k); }
    }
  }

  lemma {:induction false} Unlisted(s: State, i: nat)
    requires Inv(s) && i < |s.threads| && s.threads[i].OpenList?
    ensures s.threads[i].t !in s.v.open
  {
    var t := s.threads[i].t;
    assert Kept(s, t) && Private(s, t, i, i);
  }

  // ----- whole runs -----

  datatype Turn = Turn(i: nat, choice: Pc)

  ghost predicate Initial(s: State) {
    s.v == Shared([], [], false) && forall i :: 0 <= i < |s.threads| ==> s.threads[i] == Idle
  }

  ghost predicate Reaches(s: State, schedule: seq<Turn>, end: State)
    decreases |schedule|
  {
    if schedule == [] then s == end
    else
      Bounded(s) && schedule[0].i < |s.threads|
      && Reaches(Next(s, schedule[0].i, schedule[0].choice), schedule[1..], end)
  }

  lemma {:induction false} RunKeeps(s: State, schedule: seq<Turn>, end: State)
    requires Inv(s) && Reaches(s, schedule, end)
    ensures Inv(end)
    decreases |schedule|
  {
    hide Inv, Next;
    if schedule != [] {
      StepKeeps(s, schedule[0].i, schedule[0].choice);
      RunKeeps(Next(s, schedule[0].i, schedule[0].choice), schedule[1..], end);
    }
  }

  /** No table leaks: when the engine has been closed and every call has returned, in whatever order the
      steps were taken, no table is listed and every table that was ever built has been disposed. */
  lemma {:induction false} NoLeak(s: State, schedule: seq<Turn>, end: State, t: nat)
    requires Initial(s) && Reaches(s, schedule, end) && t < |end.v.tables|
    requires forall i :: 0 <= i < |end.threads| ==> end.threads[i] == Idle
    ensures end.v.closed ==> end.v.tables[t].disposed && t !in end.v.open
    ensures !end.v.closed ==> (t in end.v.open <==> !end.v.tables[t].disposed)
  {
    assert Inv(s);
    RunKeeps(s, schedule, end);
    assert Kept(end, t);
  }

  // ----- closing the engine -----

  /** A thread that comes to close an open engine leaves it closed with nothing listed, and has itself taken over
      every table that was listed. */
  lemma {:induction false} DisposeCloses(s: State, i: nat, choice: Pc)
    requires Bounded(s) && i < |s.threads| && s.threads[i] == Dispose
    ensures var s' := Next(s, i, choice);
            && s'.v.closed && s'.v.tables == s.v.tables
            && (!s.v.closed ==>
                  && s'.v.open == []
                  && forall t: nat :: t in s.v.open <==> Owes(s'.threads[i], t))
            && (s.v.closed ==> s'.v.open == s.v.open && s'.threads[i] == Idle)
  {
    if !s.v.closed && s.v.open != [] {
      assert forall t: nat :: t in s.v.open <==> t == s.v.open[0] || t in s.v.open[1..];
    }
  }

  lemma {:induction false} StaysClosed(s: State, schedule: seq<Turn>, end: State)
    requires Inv(s) && s.v.closed && Reaches(s, schedule, end)
    ensures end.v.closed
    decreases |schedule|
  {
    hide Inv, Next;
    if schedule != [] {
      var turn := schedule[0];
      StepKeeps(s, turn.i, turn.choice);
      StepCloses(s, turn.i, turn.choice);
      StaysClosed(Next(s, turn.i, turn.choice), schedule[1..], end);
    }
  }

  lemma {:induction false} StepCloses(s: State, i: nat, choice: Pc)
    requires Inv(s) && i < |s.threads|
    ensures s.v.closed || s.threads[i] == Dispose ==> Next(s, i, choice).v.closed
  {
  }

  /** Closing the engine closes every table: whatever the threads do before and after one of them comes to close it,
      once every call has returned the engine is closed, nothing is listed and every table ever built is disposed. */
  lemma {:induction false} ClosesAll(s0: State, before: seq<Turn>, s: State, i: nat, choice: Pc,
                                     schedule: seq<Turn>, end: State, t: nat)
    requires Initial(s0) && Reaches(s0, before, s) && i < |s.threads| && s.threads[i] == Dispose && Bounded(s)
    requires Reaches(Next(s, i, choice), schedule, end) && t < |end.v.tables|
    requires forall j :: 0 <= j < |end.threads| ==> end.threads[j] == Idle
    ensures end.v.closed && end.v.open == [] && end.v.tables[t].disposed
  {
    hide Next;
    assert Inv(s0);
    RunKeeps(s0, before, s);
    StepCloses(s, i, choice);
    StepKeeps(s, i, choice);
    RunKeeps(Next(s, i, choice), schedule, end);
    StaysClosed(Next(s, i, choice), schedule, end);
    assert Kept(end, t);
    ClosedUnlisted(end);
  }

  lemma {:induction false} ClosedUnlisted(s: State)
    requires Inv(s)
    ensures s.v.closed ==> s.v.open == []
  {
    if s.v.open != [] {
      assert s.v.open[0] in s.v.open;
      assert Kept(s, s.v.open[0]);
    }
  }

  // ----- an operation that nobody disturbs -----

  /** The state after `n` steps of one thread. */
  ghost function Alone(s: State, i: nat, choice: Pc, n: nat): State
    requires Bounded(s) && i < |s.threads|
    decreases n
  {
    if n == 0 then s
    else
      StepFrame(s, i, choice);
      Alone(Next(s, i, choice), i, choice, n - 1)
  }

  /** An open that nobody disturbs builds one table, lists it last and gives it to the caller; where the engine is
      closed it does nothing. */
  lemma {:induction false} OpensAlone(s: State, i: nat)
    requires Bounded(s) && i < |s.threads| && s.threads[i] == Idle
    ensures s.v.closed ==> Alone(s, i, OpenCheck, 2) == s
    ensures !s.v.closed ==>
              Alone(s, i, OpenCheck, 4) ==
              s.(v := Shared(s.v.tables + [Table(false, false, true)], s.v.open + [|s.v.tables|], false))
  {
    var s1 := s.(threads := s.threads[i := OpenCheck]);
    assert Next(s, i, OpenCheck) == s1;
    if s.v.closed {
      assert Next(s1, i, OpenCheck) == s;
      assert Alone(s, i, OpenCheck, 2) == Alone(s1, i, OpenCheck, 1) == Alone(s, i, OpenCheck, 0);
    } else {
      OpensOn(s, i, s1);
      assert Alone(s, i, OpenCheck, 4) == Alone(s1, i, OpenCheck, 3);
    }
  }

  lemma {:induction false} OpensOn(s: State, i: nat, s1: State)
    requires Bounded(s) && i < |s.threads| && s.threads[i] == Idle && !s.v.closed
    requires s1 == s.(threads := s.threads[i := OpenCheck]) && Bounded(s1)
    ensures Alone(s1, i, OpenCheck, 3) ==
            s.(v := Shared(s.v.tables + [Table(false, false, true)], s.v.open + [|s.v.tables|], false))
  {
    var n := |s.v.tables|;
    var s2 := s.(threads := s.threads[i := OpenBuild]);
    var v := s.v.(tables := s.v.tables + [Table(false, false, false)]);
    var s3 := State(v, s.threads[i := OpenList(n)]);
    var s4 := s.(v := Shared(s.v.tables + [Table(false, false, true)], s.v.open + [n], false));
    assert Next(s1, i, OpenCheck) == s2;
    StepFrame(s1, i, OpenCheck);
    assert Next(s2, i, OpenCheck) == s3;
    StepFrame(s2, i, OpenCheck);
    assert Next(s3, i, OpenCheck) == s4;
    StepFrame(s3, i, OpenCheck);
    assert Alone(s1, i, OpenCheck, 3) == Alone(s2, i, OpenCheck, 2) == Alone(s3, i, OpenCheck, 1);
  }

  /** Closing a table that a caller was given, and nobody disturbs: it is marked, disposed and off the list, which is
      else as it was; a table already marked is left as it is. */
  lemma {:induction false} ClosesAlone(s: State, i: nat, t: nat, left: seq<nat>, right: seq<nat>)
    requires Bounded(s) && i < |s.threads| && s.threads[i] == Idle && t < |s.v.tables| && s.v.tables[t].returned
    requires s.v.open == left + [t] + right && t !in left
    ensures var closing := Closing(t, Test, []);
            if s.v.tables[t].marked then Alone(s, i, closing, 2) == s
            else Alone(s, i, closing, 5) ==
                 s.(v := s.v.(tables := s.v.tables[t := Table(true, true, true)], open := left + right))
  {
    var choice := Closing(t, Test, []);
    var s1 := s.(threads := s.threads[i := choice]);
    var n := if s.v.tables[t].marked then 1 else 4;
    assert Next(s, i, choice) == s1;
    StepFrame(s, i, choice);
    ClosesNext(s1, i, t, [], choice, n);
    RemoveOne(left, t, right);
    assert Alone(s, i, choice, n + 1) == Alone(s1, i, choice, n);
    assert s1.threads[i := Idle] == s.threads;
  }

  lemma {:induction false} RemoveOne(left: seq<nat>, t: nat, right: seq<nat>)
    requires t !in left
    ensures Remove(left + [t] + right, t) == left + right
    decreases |left|
  {
    if left == [] {
      assert ([] + [t] + right)[1..] == right == left + right;
    } else {
      assert (left + [t] + right)[1..] == left[1..] + [t] + right;
      RemoveOne(left[1..], t, right);
    }
  }

  /** One table of those a thread goes through, when nobody disturbs it: a table already marked is passed over. */
  lemma {:induction false} ClosesNext(s: State, i: nat, t: nat, rest: seq<nat>, choice: Pc, n: nat)
    requires Bounded(s) && i < |s.threads| && s.threads[i] == Closing(t, Test, rest)
    requires n >= if s.v.tables[t].marked then 1 else 4
    ensures var s' := s.(threads := s.threads[i := After(rest)]);
            s.v.tables[t].marked ==> Bounded(s') && Alone(s, i, choice, n) == Alone(s', i, choice, n - 1)
    ensures var done := s.v.tables[t := s.v.tables[t].(marked := true, disposed := true)];
            var s' := State(Shared(done, Remove(s.v.open, t), s.v.closed), s.threads[i := After(rest)]);
            !s.v.tables[t].marked ==> Bounded(s') && Alone(s, i, choice, n) == Alone(s', i, choice, n - 4)
  {
    StepFrame(s, i, choice);
    if s.v.tables[t].marked {
      assert Next(s, i, choice) == s.(threads := s.threads[i := After(rest)]);
    } else {
      var s1 := s.(threads := s.threads[i := Closing(t, Mark, rest)]);
      assert Next(s, i, choice) == s1;
      MarksNext(s1, i, t, rest, choice, n - 1);
      assert s1.threads[i := After(rest)] == s.threads[i := After(rest)];
    }
  }

  lemma {:induction false} MarksNext(s: State, i: nat, t: nat, rest: seq<nat>, choice: Pc, n: nat)
    requires Bounded(s) && i < |s.threads| && s.threads[i] == Closing(t, Mark, rest) && n >= 3
    ensures var done := s.v.tables[t := s.v.tables[t].(marked := true, disposed := true)];
            var s' := State(Shared(done, Remove(s.v.open, t), s.v.closed), s.threads[i := After(rest)]);
            Bounded(s') && Alone(s, i, choice, n) == Alone(s', i, choice, n - 3)
  {
    var k := s.v.tables[t];
    var s2 := State(s.v.(tables := s.v.tables[t := k.(marked := true)]), s.threads[i := Closing(t, Files, rest)]);
    var done := k.(marked := true, disposed := true);
    var s3 := State(s.v.(tables := s.v.tables[t := done]), s.threads[i := Closing(t, Forget, rest)]);
    assert Next(s, i, choice) == s2;
    StepFrame(s, i, choice);
    assert Next(s2, i, choice) == s3 by {
      assert s.v.tables[t := k.(marked := true)][t := done] == s.v.tables[t := done];
    }
    StepFrame(s2, i, choice);
    StepFrame(s3, i, choice);
    assert Next(s3, i, choice) == State(Shared(s3.v.tables, Remove(s.v.open, t), s.v.closed),
                                        s.threads[i := After(rest)]);
    hide Next;
    assert Alone(s, i, choice, n) == Alone(s2, i, choice, n - 1) == Alone(s3, i, choice, n - 2);
  }

  /** The tables after all of `list` that were not marked have been closed. */
  ghost predicate Closed(before: seq<Table>, list: seq<nat>, after: seq<Table>) {
    && |after| == |before|
    && forall t: nat :: t < |before| ==>
         after[t] == if t in list && !before[t].marked then before[t].(marked := true, disposed := true) else before[t]
  }

  lemma {:induction false} ClosesList(s: State, i: nat, list: seq<nat>, choice: Pc) returns (n: nat, end: State)
    requires Bounded(s) && i < |s.threads| && s.threads[i] == After(list) && s.v.open == []
    ensures Alone(s, i, choice, n) == end && end.threads == s.threads[i := Idle]
    ensures end.v.open == [] && end.v.closed == s.v.closed && Closed(s.v.tables, list, end.v.tables)
    decreases |list|
  {
    if list == [] {
      n, end := 0, s;
    } else {
      var t, rest := list[0], list[1..];
      var done := s.v.tables[t := s.v.tables[t].(marked := true, disposed := true)];
      var steps := if s.v.tables[t].marked then 1 else 4;
      var s' := State(if s.v.tables[t].marked then s.v else s.v.(tables := done), s.threads[i := After(rest)]);
      ClosesNext(s, i, t, rest, choice, steps);
      var m: nat;
      m, end := ClosesList(s', i, rest, choice);
      n := m + steps;
      ClosesNext(s, i, t, rest, choice, n);
    }
  }

  /** Closing an engine that nobody disturbs ends, with the engine closed, nothing listed, and every table that was
      listed and that no other call had marked disposed; no other table is touched. */
  lemma {:induction false} DisposesAlone(s: State, i: nat) returns (n: nat, end: State)
    requires Bounded(s) && i < |s.threads| && s.threads[i] == Idle && !s.v.closed
    ensures Alone(s, i, Dispose, n) == end && end.threads == s.threads
    ensures end.v.closed && end.v.open == [] && Closed(s.v.tables, s.v.open, end.v.tables)
  {
    var s1 := s.(threads := s.threads[i := Dispose]);
    var s2 := State(Shared(s.v.tables, [], true), s.threads[i := After(s.v.open)]);
    assert Next(s, i, Dispose) == s1;
    StepFrame(s, i, Dispose);
    assert Next(s1, i, Dispose) == s2;
    StepFrame(s1, i, Dispose);
    var m: nat;
    m, end := ClosesList(s2, i, s.v.open, Dispose);
    n := m + 2;
    assert Alone(s, i, Dispose, n) == Alone(s1, i, Dispose, n - 1) == Alone(s2, i, Dispose, m);
  }

  // ----- an open that loses the race -----

  /** A thread is closing the table it built, or has: no other thread knows of the table, no caller was given
      it, and it is not listed. */
  ghost predicate Losing(s: State, i: nat, t: nat) {
    && t < |s.v.tables| && i < |s.threads| && t !in s.v.open && !s.v.tables[t].returned
    && (forall j :: 0 <= j < |s.threads| && j != i ==> !Mentions(s.threads[j], t))
    && (Mentions(s.threads[i], t) ==> s.threads[i].Closing? && s.threads[i].t == t && s.threads[i].rest == [])
    && (s.v.tables[t].disposed || Owes(s.threads[i], t))
    && (s.v.tables[t].marked ==> s.v.tables[t].disposed || At(s.threads[i], t, Files))
  }

  lemma {:induction false} LosingStep(s: State, i: nat, t: nat, k: nat, choice: Pc)
    requires Bounded(s) && Losing(s, i, t) && k < |s.threads|
    ensures Losing(Next(s, k, choice), i, t)
  {
    hide Act, Mentions;
    var pc := s.threads[k];
    StepFrame(s, k, choice);
    ActTable(s.v, pc, choice, t);
    ActOpen(s.v, pc, choice, t);
    ActMentions(s.v, pc, choice, t);
    MentionsOwn(pc, t);
    if k == i && Mentions(pc, t) {
      LoserMoves(s.v, pc, choice);
    }
  }

  lemma {:induction false} LoserMoves(v: Shared, pc: Pc, choice: Pc)
    requires Within(pc, |v.tables|) && pc.Closing? && pc.rest == []
    ensures var t, next := pc.t, Act(v, pc, choice).pc;
            && (Mentions(next, t) ==> next.Closing? && next.t == t && next.rest == [])
            && (Owes(pc, t) ==> Owes(next, t) || (pc.phase == Test && v.tables[t].marked) || pc.phase == Files)
            && (pc.phase == Mark ==> At(next, t, Files))
  {
  }

  lemma {:induction false} LosingRun(s: State, i: nat, t: nat, schedule: seq<Turn>, end: State)
    requires Inv(s) && Losing(s, i, t) && Reaches(s, schedule, end)
    ensures Losing(end, i, t)
    decreases |schedule|
  {
    hide Inv, Next, Losing;
    if schedule != [] {
      var turn := schedule[0];
      StepKeeps(s, turn.i, turn.choice);
      LosingStep(s, i, t, turn.i, turn.choice);
      LosingRun(Next(s, turn.i, turn.choice), i, t, schedule[1..], end);
    }
  }

  /** An open that comes to list its table lists it and gives it to the caller, if the engine is not closed. If it
      is, then whatever the threads do from there on, nobody is ever given the table and it is not listed; and
      once the thread is done with it, and throws, the table is disposed. */
  lemma {:induction false} OpenOutcome(s: State, i: nat, choice: Pc, schedule: seq<Turn>, end: State)
    requires Inv(s) && i < |s.threads| && s.threads[i].OpenList? && Reaches(Next(s, i, choice), schedule, end)
    ensures var s', t := Next(s, i, choice), s.threads[i].t;
            if s.v.closed then
              && t < |end.v.tables| && i < |end.threads| && !end.v.tables[t].returned && t !in end.v.open
              && (!Mentions(end.threads[i], t) ==> end.v.tables[t].disposed)
            else s'.threads[i] == Idle && s'.v.tables[t].returned && t in s'.v.open && !s'.v.tables[t].disposed
  {
    var s', t := Next(s, i, choice), s.threads[i].t;
    assert Private(s, t, i, i) && Kept(s, t);
    StepKeeps(s, i, choice);
    if s.v.closed {
      forall j | 0 <= j < |s.threads| && j != i ensures !Mentions(s'.threads[j], t) {
        assert Private(s, t, i, j);
      }
      LosingRun(s', i, t, schedule, end);
    }
  }
}
