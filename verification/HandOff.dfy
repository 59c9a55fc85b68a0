/** How a message that has arrived on a connection comes to be served.

    A communications thread stores the message, worker threads take connections off the to-service
    list, and a shutdown may come in between.  Two kinds of mutex guard the state: one for each
    connection's completed messages and one for the list.  A thread advances by one access to shared
    state at a time and the schedule is arbitrary, so that a theorem about `Run` speaks of every
    interleaving. */
module HandOff {
  import opened Wrappers

  datatype WorkState = Starting | Idle | Working | Shutdown

  /** `failed` marks a message without a positive length. */
  datatype Message = Message(id: nat, failed: bool)

  datatype Conn = Conn(work: WorkState, msgs: seq<Message>, lock: Option<nat>)

  /** Where a thread stands; a lock named by a step is taken or released by it. */
  datatype Pc =
    | Ready
    | StoreEnter(c: nat, m: Message, atTop: bool)
    | StoreAdd(c: nat, m: Message, atTop: bool)
    | StoreTest(c: nat)
    | StoreLockList(c: nat)
    | StoreLink(c: nat)
    | StoreSet(c: nat)
    | StoreUnlockList(c: nat)
    | StoreWake(c: nat)
    | StoreUnlock(c: nat)
    | WorkWait
    | WorkLockList
    | WorkTake
    | WorkUnlockList(taken: Option<nat>)
    | Serve(c: nat)
    | ContinueLock(c: nat)
    | ContinueTest(c: nat)
    | ContinueUnlock(c: nat, finished: bool)
    | ShutLock(c: nat)
    | ShutLockList(c: nat)
    | ShutSet(c: nat)
    | ShutUnlockList(c: nat)
    | ShutUnlock(c: nat)
    | InitSet(c: nat)
    | UndoTest(c: nat)
    | UndoLockList(c: nat)
    | UndoRemove(c: nat)
    | UndoUnlockList(c: nat)

  /** `permits` is the count of the semaphore the workers wait on. */
  datatype State = State(conns: seq<Conn>, threads: seq<Pc>, listLock: Option<nat>, toService: seq<nat>, permits: nat)

  // ----- steps -----

  /** The connection a thread's operation is about. */
  function Subject(pc: Pc): Option<nat> {
    match pc
    case Ready => None
    case WorkWait => None
    case WorkLockList => None
    case WorkTake => None
    case WorkUnlockList(taken) => taken
    case _ => Some(pc.c)
  }

  function Without(list: seq<nat>, c: nat): (r: seq<nat>)
    ensures |r| <= |list|
    ensures forall x :: x in r <==> x in list && x != c
  {
    if list == [] then []
    else if list[0] == c then Without(list[1..], c)
    else [list[0]] + Without(list[1..], c)
  }

  /** What a thread sees and changes: its place, the connection it is about, the list, the semaphore. */
  datatype Sight = Sight(pc: Pc, conn: Conn, listLock: Option<nat>, toService: seq<nat>, permits: nat)

  /** The operations a thread may begin. */
  predicate Entry(pc: Pc) {
    pc.StoreEnter? || pc.WorkWait? || pc.ShutLock? || pc.InitSet? || pc.UndoTest?
  }

  function LockConn(v: Sight, t: nat, pc: Pc): Option<Sight> {
    if v.conn.lock.Some? then None else Some(v.(conn := v.conn.(lock := Some(t)), pc := pc))
  }

  function UnlockConn(v: Sight, pc: Pc): Option<Sight> {
    Some(v.(conn := v.conn.(lock := None), pc := pc))
  }

  function LockList(v: Sight, t: nat, pc: Pc): Option<Sight> {
    if v.listLock.Some? then None else Some(v.(listLock := Some(t), pc := pc))
  }

  function UnlockList(v: Sight, pc: Pc): Option<Sight> {
    Some(v.(listLock := None, pc := pc))
  }

  function SetWork(v: Sight, w: WorkState, pc: Pc): Option<Sight> {
    Some(v.(conn := v.conn.(work := w), pc := pc))
  }

  function SetMsgs(v: Sight, ms: seq<Message>, pc: Pc): Option<Sight> {
    Some(v.(conn := v.conn.(msgs := ms), pc := pc))
  }

  /** The next step of thread `t`, or `None` where it has to wait.  `choice` settles what the program
      leaves open: the operation a thread begins, and whether a worker reads on before it asks. */
  function Act(v: Sight, t: nat, choice: Pc): Option<Sight> {
    match v.pc
    case Ready => if Entry(choice) then Some(v.(pc := choice)) else None
    // storing a message
    case StoreEnter(c, m, atTop) =>
      if v.conn.work == Starting && !m.failed then None else LockConn(v, t, StoreAdd(c, m, atTop))
    case StoreAdd(c, m, atTop) => SetMsgs(v, if atTop then [m] + v.conn.msgs else v.conn.msgs + [m], StoreTest(c))
    case StoreTest(c) => Some(v.(pc := if v.conn.work == Idle then StoreLockList(c) else StoreUnlock(c)))
    case StoreLockList(c) => LockList(v, t, StoreLink(c))
    case StoreLink(c) => Some(v.(toService := v.toService + [c], pc := StoreSet(c)))
    case StoreSet(c) => SetWork(v, Working, StoreUnlockList(c))
    case StoreUnlockList(c) => UnlockList(v, StoreWake(c))
    case StoreWake(c) => Some(v.(permits := v.permits + 1, pc := StoreUnlock(c)))
    case StoreUnlock(c) => UnlockConn(v, Ready)
    // a worker
    case WorkWait => if v.permits == 0 then None else Some(v.(permits := v.permits - 1, pc := WorkLockList))
    case WorkLockList => LockList(v, t, WorkTake)
    case WorkTake =>
      if v.toService == [] then Some(v.(pc := WorkUnlockList(None)))
      else Some(v.(toService := v.toService[1..], pc := WorkUnlockList(Some(v.toService[0]))))
    case WorkUnlockList(taken) => UnlockList(v, if taken.Some? then Serve(taken.value) else Ready)
    case Serve(c) =>
      if v.conn.lock.Some? then None
      else
        SetMsgs(v, if v.conn.msgs == [] then [] else v.conn.msgs[1..],
                if choice.Ready? then Serve(c) else ContinueLock(c))
    case ContinueLock(c) => LockConn(v, t, ContinueTest(c))
    case ContinueTest(c) =>
      if v.conn.work == Shutdown then Some(v.(pc := ContinueUnlock(c, true)))
      else if v.conn.msgs != [] then Some(v.(pc := ContinueUnlock(c, false)))
      else if v.conn.work == Working then SetWork(v, Idle, ContinueUnlock(c, true))
      else Some(v.(pc := ContinueUnlock(c, true)))
    case ContinueUnlock(c, finished) => UnlockConn(v, if finished then Ready else Serve(c))
    // shutting a connection down
    case ShutLock(c) => LockConn(v, t, ShutLockList(c))
    case ShutLockList(c) => LockList(v, t, ShutSet(c))
    case ShutSet(c) => SetWork(v, Shutdown, ShutUnlockList(c))
    case ShutUnlockList(c) => UnlockList(v, ShutUnlock(c))
    case ShutUnlock(c) => UnlockConn(v, Ready)
    // the end of its set-up, and its removal
    case InitSet(c) => SetWork(v, Idle, Ready)
    case UndoTest(c) =>
      if v.conn.work != Shutdown then None
      else Some(v.(pc := if c in v.toService then UndoLockList(c) else Ready))
    case UndoLockList(c) => LockList(v, t, UndoRemove(c))
    case UndoRemove(c) => Some(v.(toService := Without(v.toService, c), pc := UndoUnlockList(c)))
    case UndoUnlockList(c) => UnlockList(v, Ready)
  }

  predicate Bounded(s: State) {
    && (forall t :: 0 <= t < |s.threads| ==> Subject(s.threads[t]).Some? ==> Subject(s.threads[t]).value < |s.conns|)
    && (forall i :: 0 <= i < |s.toService| ==> s.toService[i] < |s.conns|)
  }

  const NO_CONN := Conn(Starting, [], None)

  function See(s: State, t: nat): Sight
    requires Bounded(s) && t < |s.threads|
  {
    var subject := Subject(s.threads[t]);
    Sight(s.threads[t], if subject.Some? then s.conns[subject.value] else NO_CONN, s.listLock, s.toService, s.permits)
  }

  function Put(s: State, t: nat, v: Sight): State
    requires Bounded(s) && t < |s.threads|
  {
    var subject := Subject(s.threads[t]);
    State(if subject.Some? then s.conns[subject.value := v.conn] else s.conns,
          s.threads[t := v.pc], v.listLock, v.toService, v.permits)
  }

  function Next(s: State, t: nat, choice: Pc): Option<State>
    requires Bounded(s) && t < |s.threads|
  {
    var subject := Subject(choice);
    if s.threads[t].Ready? && subject.Some? && subject.value >= |s.conns| then None
    else
      match Act(See(s, t), t, choice)
      case None => None
      case Some(v) => Some(Put(s, t, v))
  }

  // ----- what the state keeps -----

  /** The thread holds the mutex of the completed messages of `c`. */
  ghost predicate InMessages(pc: Pc, c: nat) {
    match pc
    case StoreAdd(d, _, _) => d == c
    case StoreTest(d) => d == c
    case StoreLockList(d) => d == c
    case StoreLink(d) => d == c
    case StoreSet(d) => d == c
    case StoreUnlockList(d) => d == c
    case StoreWake(d) => d == c
    case StoreUnlock(d) => d == c
    case ContinueTest(d) => d == c
    case ContinueUnlock(d, _) => d == c
    case ShutLockList(d) => d == c
    case ShutSet(d) => d == c
    case ShutUnlockList(d) => d == c
    case ShutUnlock(d) => d == c
    case _ => false
  }

  /** The thread holds the mutex of the to-service list. */
  ghost predicate InList(pc: Pc) {
    || pc.StoreLink? || pc.StoreSet? || pc.StoreUnlockList? || pc.WorkTake? || pc.WorkUnlockList?
    || pc.ShutSet? || pc.ShutUnlockList? || pc.UndoRemove? || pc.UndoUnlockList?
  }

  /** The thread is a worker that services `c`. */
  ghost predicate Services(pc: Pc, c: nat) {
    || pc == WorkUnlockList(Some(c)) || pc == Serve(c) || pc == ContinueLock(c)
    || pc == ContinueTest(c) || pc == ContinueUnlock(c, false)
  }

  /** The thread has found `c` idle, or is about to look, and will put it on the list. */
  ghost predicate Linking(pc: Pc, c: nat) {
    pc == StoreTest(c) || pc == StoreLockList(c) || pc == StoreLink(c) || pc == StoreSet(c)
  }

  ghost predicate Serviced(s: State, c: nat) {
    exists t :: 0 <= t < |s.threads| && Services(s.threads[t], c)
  }

  ghost predicate BeingLinked(s: State, c: nat) {
    exists t :: 0 <= t < |s.threads| && Linking(s.threads[t], c)
  }

  ghost predicate NoRepeats(list: seq<nat>) {
    forall i, j :: 0 <= i < j < |list| ==> list[i] != list[j]
  }

  /** Thread `t` holds a mutex exactly while it stands between taking and releasing it. */
  ghost predicate Locked(s: State, c: nat, t: nat)
    requires c < |s.conns| && t < |s.threads|
  {
    && (s.conns[c].lock == Some(t) <==> InMessages(s.threads[t], c))
    && (s.listLock == Some(t) <==> InList(s.threads[t]))
  }

  /** A connection is on the list or serviced, never both, and serviced by one worker at a time. */
  ghost predicate OwnedOnce(s: State, c: nat, t: nat, u: nat)
    requires t < |s.threads| && u < |s.threads|
  {
    && (Services(s.threads[t], c) ==> c !in s.toService)
    && (Services(s.threads[t], c) && Services(s.threads[u], c) ==> t == u)
  }

  /** What the work state of a connection says about its messages and who looks after them. */
  ghost predicate Accounted(s: State, c: nat)
    requires c < |s.conns|
  {
    match s.conns[c].work
    case Starting => c !in s.toService && !Serviced(s, c)
    case Idle =>
      && !Serviced(s, c)
      && (c in s.toService ==> exists t :: 0 <= t < |s.threads| && s.threads[t] == StoreSet(c))
      && (s.conns[c].msgs != [] ==> BeingLinked(s, c))
    case Working => c in s.toService || Serviced(s, c)
    case Shutdown => true
  }

  /** What a thread that is linking or undoing a connection knows of its work state. */
  ghost predicate Informed(s: State, t: nat)
    requires Bounded(s) && t < |s.threads|
  {
    match s.threads[t]
    case StoreLockList(c) => s.conns[c].work == Idle
    case StoreLink(c) => s.conns[c].work == Idle && c !in s.toService
    case StoreSet(c) => s.conns[c].work == Idle && c in s.toService
    case UndoLockList(c) => s.conns[c].work == Shutdown
    case UndoRemove(c) => s.conns[c].work == Shutdown
    case _ => true
  }

  /** Workers that have passed the semaphore and not yet looked at the list. */
  ghost predicate Woken(pc: Pc) {
    pc.WorkLockList? || pc.WorkTake?
  }

  /** Threads that have put a connection on the list and not yet released the semaphore. */
  ghost predicate Waking(pc: Pc) {
    pc.StoreSet? || pc.StoreUnlockList? || pc.StoreWake?
  }

  ghost function Attends(pc: Pc): nat {
    if Woken(pc) || Waking(pc) then 1 else 0
  }

  ghost function Attending(ts: seq<Pc>): nat {
    if ts == [] then 0 else Attends(ts[0]) + Attending(ts[1..])
  }

  ghost predicate Holders(s: State) {
    && (forall c :: 0 <= c < |s.conns| && s.conns[c].lock.Some? ==> s.conns[c].lock.value < |s.threads|)
    && (s.listLock.Some? ==> s.listLock.value < |s.threads|)
  }

  ghost predicate Inv(s: State) {
    && Bounded(s) && Holders(s)
    && (forall c, t :: 0 <= c < |s.conns| && 0 <= t < |s.threads| ==> Locked(s, c, t))
    && NoRepeats(s.toService)
    && (forall c, t, u :: 0 <= c < |s.conns| && 0 <= t < |s.threads| && 0 <= u < |s.threads| ==> OwnedOnce(s, c, t, u))
    && (forall c :: 0 <= c < |s.conns| ==> Accounted(s, c))
    && (forall t :: 0 <= t < |s.threads| ==> Informed(s, t))
    && |s.toService| <= s.permits + Attending(s.threads)
  }

  // ----- every step keeps it -----

  /** The end of set-up makes a connection idle; this is when it may. */
  ghost predicate Orderly(s: State, t: nat)
    requires Bounded(s) && t < |s.threads|
  {
    s.threads[t].InitSet? ==>
      var c := s.threads[t].c;
      && s.conns[c].work == Starting
      && (s.conns[c].msgs == [] || exists u :: 0 <= u < |s.threads| && s.threads[u] == StoreTest(c))
  }

  ghost predicate Goes(s: State, t: nat, choice: Pc, s': State) {
    Bounded(s) && t < |s.threads| && Next(s, t, choice) == Some(s')
  }

  lemma {:induction false} StepFrame(s: State, t: nat, choice: Pc, s': State)
    requires Goes(s, t, choice, s')
    ensures Act(See(s, t), t, choice).Some? && s' == Put(s, t, Act(See(s, t), t, choice).value)
    ensures |s'.conns| == |s.conns| && |s'.threads| == |s.threads|
    ensures forall u :: 0 <= u < |s.threads| && u != t ==> s'.threads[u] == s.threads[u]
    ensures forall c :: 0 <= c < |s.conns| && Subject(s.threads[t]) != Some(c) ==> s'.conns[c] == s.conns[c]
  {
    hide Act;
  }

  /** A step stays with its connection, except where it begins, ends or takes one off the list. */
  lemma {:induction false} ActSubject(v: Sight, t: nat, choice: Pc)
    requires Act(v, t, choice).Some?
    ensures var v' := Act(v, t, choice).value;
            Subject(v'.pc) == Subject(v.pc) || Subject(v'.pc) == None || (v.pc.Ready? && v'.pc == choice)
            || (v.pc.WorkTake? && v.toService != [] && Subject(v'.pc) == Some(v.toService[0]))
  {
  }

  lemma {:induction false} ActList(v: Sight, t: nat, choice: Pc, c: nat)
    requires Act(v, t, choice).Some?
    ensures var v' := Act(v, t, choice).value;
            && (c in v'.toService ==> c in v.toService || v.pc == StoreLink(c))
            && (v.pc == StoreLink(c) ==> c in v'.toService)
            && (c in v.toService && c !in v'.toService ==>
                  || (v.pc == UndoRemove(c) && v'.pc == UndoUnlockList(c))
                  || (v.pc == WorkTake && v'.pc == WorkUnlockList(Some(c))))
  {
  }

  lemma {:induction false} StepBounded(s: State, t: nat, choice: Pc, s': State)
    requires Goes(s, t, choice, s')
    ensures Bounded(s')
  {
    hide Act;
    StepFrame(s, t, choice, s');
    ActSubject(See(s, t), t, choice);
    forall i | 0 <= i < |s'.toService| ensures s'.toService[i] < |s'.conns| {
      ActList(See(s, t), t, choice, s'.toService[i]);
    }
  }

  /** A step takes a mutex only when it is free, and only the thread that holds it gives it up. */
  lemma {:induction false} ActLocks(v: Sight, t: nat, choice: Pc, c: nat)
    requires Act(v, t, choice).Some?
    requires Subject(v.pc) == Some(c) ==> (v.conn.lock == Some(t) <==> InMessages(v.pc, c))
    requires v.listLock == Some(t) <==> InList(v.pc)
    ensures var v' := Act(v, t, choice).value;
            && (Subject(v.pc) == Some(c) ==>
                  && (v'.conn.lock == Some(t) <==> InMessages(v'.pc, c))
                  && (v'.conn.lock == v.conn.lock || {v'.conn.lock, v.conn.lock} == {Some(t), None}))
            && (Subject(v.pc) != Some(c) ==> !InMessages(v.pc, c) && !InMessages(v'.pc, c))
            && (v'.listLock == Some(t) <==> InList(v'.pc))
            && (v'.listLock == v.listLock || {v'.listLock, v.listLock} == {Some(t), None})
  {
  }

  lemma {:induction false} StepLocked(s: State, t: nat, choice: Pc, s': State, c: nat, u: nat)
    requires Goes(s, t, choice, s') && c < |s.conns| && u < |s.threads|
    requires Locked(s, c, t) && Locked(s, c, u)
    ensures |s'.conns| == |s.conns| && |s'.threads| == |s.threads| && Locked(s', c, u)
  {
    hide Act, InMessages, InList, Bounded;
    StepFrame(s, t, choice, s');
    ActLocks(See(s, t), t, choice, c);
  }

  lemma {:induction false} StepHolders(s: State, t: nat, choice: Pc, s': State)
    requires Goes(s, t, choice, s') && Holders(s)
    ensures Holders(s')
  {
    hide Bounded;
    StepFrame(s, t, choice, s');
  }

  lemma {:induction false} WithoutRepeats(list: seq<nat>, c: nat)
    requires NoRepeats(list)
    ensures NoRepeats(Without(list, c))
  {
    if list != [] {
      var rest := list[1..];
      assert forall i :: 0 <= i < |rest| ==> rest[i] == list[i + 1];
      WithoutRepeats(rest, c);
      if list[0] != c {
        var w := Without(rest, c);
        assert list[0] !in w;
        assert forall i :: 0 < i < |w| + 1 ==> ([list[0]] + w)[i] == w[i - 1];
      }
    }
  }

  lemma {:induction false} ActNoRepeats(v: Sight, t: nat, choice: Pc)
    requires Act(v, t, choice).Some? && NoRepeats(v.toService)
    requires v.pc.StoreLink? ==> v.pc.c !in v.toService
    ensures NoRepeats(Act(v, t, choice).value.toService)
  {
    if v.pc.UndoRemove? { WithoutRepeats(v.toService, v.pc.c); }
  }

  /** Who comes to service a connection has just taken it off the list; who stops has found it without
      messages, or shut down. */
  lemma {:induction false} ActServices(v: Sight, t: nat, choice: Pc, c: nat)
    requires Act(v, t, choice).Some?
    ensures var v' := Act(v, t, choice).value;
            && (Services(v'.pc, c) && !Services(v.pc, c) ==>
                  v.pc == WorkTake && v.toService != [] && v.toService[0] == c && v'.toService == v.toService[1..])
            && (Services(v.pc, c) && !Services(v'.pc, c) ==>
                  v.pc == ContinueTest(c) && (v.conn.work == Working ==> v'.conn.work == Idle && v.conn.msgs == []))
            && (Services(v.pc, c) ==> v'.toService == v.toService)
  {
  }

  lemma {:induction false} StepOwnedOnce(s: State, t: nat, choice: Pc, s': State, c: nat, u: nat, w: nat)
    requires Goes(s, t, choice, s') && NoRepeats(s.toService) && Informed(s, t)
    requires u < |s.threads| && w < |s.threads|
    requires OwnedOnce(s, c, u, w) && OwnedOnce(s, c, w, u)
    requires s.threads[t] == StoreLink(c) ==> !Services(s.threads[u], c)
    ensures |s'.threads| == |s.threads| && OwnedOnce(s', c, u, w)
  {
    hide Act, Services, Bounded;
    StepFrame(s, t, choice, s');
    ActServices(See(s, t), t, choice, c);
    ActList(See(s, t), t, choice, c);
    if s.toService != [] { FirstOnce(s.toService); }
  }

  lemma {:induction false} FirstOnce(list: seq<nat>)
    requires list != [] && NoRepeats(list)
    ensures list[0] !in list[1..]
  {
    assert forall i :: 0 <= i < |list[1..]| ==> list[1..][i] == list[i + 1];
  }

  /** How a step changes the work state and the messages of its connection. */
  lemma {:induction false} ActWork(v: Sight, t: nat, choice: Pc)
    requires Act(v, t, choice).Some?
    ensures var v' := Act(v, t, choice).value;
            && (v'.conn.work == v.conn.work
                || (v.pc.StoreSet? && v'.conn.work == Working && v'.pc == StoreUnlockList(v.pc.c))
                || (v.pc.ShutSet? && v'.conn.work == Shutdown)
                || (v.pc.InitSet? && v'.conn.work == Idle && v'.pc == Ready)
                || (v.pc.ContinueTest? && v.conn.work == Working && v'.conn.work == Idle && v.conn.msgs == []
                    && v'.pc == ContinueUnlock(v.pc.c, true)))
            && (v'.conn.msgs == v.conn.msgs
                || (v.pc.StoreAdd? && v'.pc == StoreTest(v.pc.c))
                || (v.pc.Serve? && (v.conn.msgs == [] ==> v'.conn.msgs == [])))
  {
  }

  lemma {:induction false} ActLinking(v: Sight, t: nat, choice: Pc, c: nat)
    requires Act(v, t, choice).Some? && Linking(v.pc, c) && !Linking(Act(v, t, choice).value.pc, c)
    ensures (v.pc == StoreTest(c) && v.conn.work != Idle) || v.pc == StoreSet(c)
    ensures v.pc == StoreTest(c) ==> Act(v, t, choice).value.conn == v.conn
    ensures v.pc == StoreSet(c) ==> Act(v, t, choice).value.conn.work == Working
  {
  }

  /** Someone who services `c` or links it goes on doing so, unless it is thread `t`. */
  lemma {:induction false} Others(s: State, t: nat, choice: Pc, s': State, c: nat)
    requires Goes(s, t, choice, s')
    ensures Serviced(s, c) && !Services(s.threads[t], c) ==> Serviced(s', c)
    ensures Serviced(s', c) && !Services(s'.threads[t], c) ==> Serviced(s, c)
    ensures BeingLinked(s, c) && !Linking(s.threads[t], c) ==> BeingLinked(s', c)
    ensures |s'.threads| == |s.threads|
    ensures Services(s'.threads[t], c) ==> Serviced(s', c)
    ensures Linking(s'.threads[t], c) ==> BeingLinked(s', c)
  {
    hide Act, Services, Linking, Bounded;
    StepFrame(s, t, choice, s');
    if Serviced(s, c) {
      var u :| 0 <= u < |s.threads| && Services(s.threads[u], c);
      assert u == t || Services(s'.threads[u], c);
    }
    if Serviced(s', c) {
      var u :| 0 <= u < |s'.threads| && Services(s'.threads[u], c);
      assert u == t || Services(s.threads[u], c);
    }
    if BeingLinked(s, c) {
      var u :| 0 <= u < |s.threads| && Linking(s.threads[u], c);
      assert u == t || Linking(s'.threads[u], c);
    }
  }

  /** A connection whose mutex another thread holds is not being linked or tested by this one. */
  lemma {:induction false} OneLinker(s: State, t: nat, u: nat, c: nat)
    requires Inv(s) && t < |s.threads| && u < |s.threads| && c < |s.conns|
    requires InMessages(s.threads[t], c) && InMessages(s.threads[u], c)
    ensures t == u
  {
    assert Locked(s, c, t) && Locked(s, c, u);
  }

  lemma {:induction false} OneInList(s: State, t: nat, u: nat, c: nat)
    requires Inv(s) && t < |s.threads| && u < |s.threads| && c < |s.conns|
    requires InList(s.threads[t]) && InList(s.threads[u])
    ensures t == u
  {
    assert Locked(s, c, t) && Locked(s, c, u);
  }

  /** Nobody takes a connection that is only just being linked. */
  lemma {:induction false} NotTaken(s: State, t: nat, c: nat)
    requires Inv(s) && t < |s.threads| && c < |s.conns| && s.conns[c].work == Idle && s.threads[t] == WorkTake
    ensures c !in s.toService
  {
    if c in s.toService {
      assert Accounted(s, c);
      var u :| 0 <= u < |s.threads| && s.threads[u] == StoreSet(c);
      OneInList(s, t, u, c);
    }
  }

  lemma {:induction false} StaysUnserviced(s: State, t: nat, choice: Pc, s': State, c: nat)
    requires Inv(s) && Goes(s, t, choice, s') && Orderly(s, t) && c < |s.conns|
    requires |s'.conns| == |s.conns| && s'.conns[c].work == Idle
    ensures !Serviced(s', c)
  {
    hide Act, Bounded, Attending, Linking, BeingLinked;
    StepFrame(s, t, choice, s');
    var v := See(s, t);
    ActServices(v, t, choice, c);
    ActWork(v, t, choice);
    assert Accounted(s, c);
    if Serviced(s', c) {
      var u :| 0 <= u < |s'.threads| && Services(s'.threads[u], c);
      assert u != t ==> Services(s.threads[u], c) && OwnedOnce(s, c, t, u);
      if s.conns[c].work == Idle && s.threads[t] == WorkTake { NotTaken(s, t, c); }
    }
  }

  lemma {:induction false} StaysUnlisted(s: State, t: nat, choice: Pc, s': State, c: nat)
    requires Inv(s) && Goes(s, t, choice, s') && Orderly(s, t) && c < |s.conns|
    requires |s'.conns| == |s.conns| && s'.conns[c].work == Idle && c in s'.toService
    ensures exists u :: 0 <= u < |s'.threads| && s'.threads[u] == StoreSet(c)
  {
    hide Bounded, Attending, Linking, BeingLinked;
    StepFrame(s, t, choice, s');
    var v := See(s, t);
    assert Accounted(s, c);
    if s.threads[t] == StoreLink(c) {
      assert s'.threads[t] == StoreSet(c);
    } else {
      hide Act;
      ActList(v, t, choice, c);
      ActWork(v, t, choice);
      assert OwnedOnce(s, c, t, t);
      var u :| 0 <= u < |s.threads| && s.threads[u] == StoreSet(c);
      assert u != t ==> s'.threads[u] == StoreSet(c);
      if v.pc.StoreSet? { ActSets(v, t, choice); }
    }
  }

  lemma {:induction false} ActSets(v: Sight, t: nat, choice: Pc)
    requires Act(v, t, choice).Some? && v.pc.StoreSet?
    ensures Act(v, t, choice).value.conn.work == Working
  {
  }

  lemma {:induction false} StepAccounted(s: State, t: nat, choice: Pc, s': State, c: nat)
    requires Inv(s) && Goes(s, t, choice, s') && Orderly(s, t) && c < |s.conns|
    ensures |s'.conns| == |s.conns| && Accounted(s', c)
  {
    hide Act, Bounded, Attending, Linking, BeingLinked, Locked, Inv;
    StepFrame(s, t, choice, s');
    assert Accounted(s, c) && Informed(s, t) && OwnedOnce(s, c, t, t) by { Unfold(s, t, c); }
    match s'.conns[c].work
    case Starting => StepStarting(s, t, choice, s', c);
    case Idle =>
      StaysUnserviced(s, t, choice, s', c);
      if c in s'.toService { StaysUnlisted(s, t, choice, s', c); }
      if s'.conns[c].msgs != [] { StaysLinked(s, t, choice, s', c); }
    case Working =>
      Others(s, t, choice, s', c);
      ActServices(See(s, t), t, choice, c);
      ActList(See(s, t), t, choice, c);
      ActWork(See(s, t), t, choice);
    case Shutdown =>
  }

  lemma {:induction false} Unfold(s: State, t: nat, c: nat)
    requires Inv(s) && t < |s.threads| && c < |s.conns|
    ensures Accounted(s, c) && Informed(s, t) && Locked(s, c, t)
    ensures forall u :: 0 <= u < |s.threads| ==> OwnedOnce(s, c, t, u) && OwnedOnce(s, c, u, t)
  {
  }

  lemma {:induction false} StepStarting(s: State, t: nat, choice: Pc, s': State, c: nat)
    requires Inv(s) && Goes(s, t, choice, s') && c < |s.conns|
    requires |s'.conns| == |s.conns| && s'.conns[c].work == Starting
    ensures c !in s'.toService && !Serviced(s', c)
  {
    hide Act, Bounded, Attending, Linking, BeingLinked, Locked;
    StepFrame(s, t, choice, s');
    assert Accounted(s, c) && Informed(s, t);
    Others(s, t, choice, s', c);
    ActServices(See(s, t), t, choice, c);
    ActList(See(s, t), t, choice, c);
    ActWork(See(s, t), t, choice);
  }

  lemma {:induction false} StaysLinked(s: State, t: nat, choice: Pc, s': State, c: nat)
    requires Inv(s) && Goes(s, t, choice, s') && Orderly(s, t) && c < |s.conns|
    requires |s'.conns| == |s.conns| && s'.conns[c].work == Idle && s'.conns[c].msgs != []
    ensures BeingLinked(s', c)
  {
    hide Act, Bounded, Attending, Locked, OwnedOnce;
    StepFrame(s, t, choice, s');
    assert Accounted(s, c) && Informed(s, t);
    Others(s, t, choice, s', c);
    ActWork(See(s, t), t, choice);
    if Linking(s.threads[t], c) && !Linking(s'.threads[t], c) { ActLinking(See(s, t), t, choice, c); }
    if s.threads[t] == InitSet(c) {
      var u :| 0 <= u < |s.threads| && s.threads[u] == StoreTest(c);
      assert Linking(s.threads[u], c);
    }
  }

  lemma {:induction false} ActInformed(v: Sight, t: nat, choice: Pc)
    requires Act(v, t, choice).Some?
    ensures var v' := Act(v, t, choice).value;
            match v'.pc
            case StoreLockList(c) => v.pc == StoreTest(c) && v'.conn.work == v.conn.work == Idle
            case StoreLink(c) => v.pc == StoreLockList(c) && v'.conn.work == v.conn.work && v'.toService == v.toService
            case StoreSet(c) => v.pc == StoreLink(c) && v'.conn.work == v.conn.work && c in v'.toService
            case UndoLockList(c) => v.pc == UndoTest(c) && v'.conn.work == Shutdown
            case UndoRemove(c) => v.pc == UndoLockList(c) && v'.conn.work == v.conn.work
            case _ => true
  {
  }

  /** What a thread was told about its connection stays true while others move. */
  lemma {:induction false} StepInformed(s: State, t: nat, choice: Pc, s': State, u: nat)
    requires Inv(s) && Goes(s, t, choice, s') && Orderly(s, t) && u < |s.threads|
    ensures Bounded(s') && |s'.threads| == |s.threads| && Informed(s', u)
  {
    hide Act, Attending, OwnedOnce, Linking, BeingLinked;
    StepFrame(s, t, choice, s');
    StepBounded(s, t, choice, s');
    assert Informed(s, u) && Informed(s, t);
    ActWork(See(s, t), t, choice);
    if u == t {
      ActInformed(See(s, t), t, choice);
      if s.threads[t].StoreLockList? { Unlisted(s, t, s.threads[t].c); }
    } else if Subject(s.threads[u]).Some? {
      var c := Subject(s.threads[u]).value;
      assert Locked(s, c, t) && Locked(s, c, u);
      ActList(See(s, t), t, choice, c);
    }
  }

  /** A connection is not yet on the list when the thread that found it idle takes the list's mutex. */
  lemma {:induction false} Unlisted(s: State, t: nat, c: nat)
    requires Inv(s) && t < |s.threads| && c < |s.conns| && s.threads[t] == StoreLockList(c)
    ensures c !in s.toService
  {
    assert Accounted(s, c) && Informed(s, t);
    if c in s.toService {
      var u :| 0 <= u < |s.threads| && s.threads[u] == StoreSet(c);
      OneLinker(s, t, u, c);
    }
  }

  // ----- the semaphore -----

  lemma {:induction false} AttendingAt(ts: seq<Pc>, i: nat, pc: Pc)
    requires i < |ts|
    ensures Attending(ts[i := pc]) == Attending(ts) - Attends(ts[i]) + Attends(pc)
  {
    if i > 0 {
      assert ts[i := pc][1..] == ts[1..][i - 1 := pc];
      AttendingAt(ts[1..], i - 1, pc);
    } else {
      assert ts[0 := pc][1..] == ts[1..];
    }
  }

  lemma {:induction false} StepAttended(s: State, t: nat, choice: Pc, s': State)
    requires Inv(s) && Goes(s, t, choice, s')
    ensures |s'.toService| <= s'.permits + Attending(s'.threads)
  {
    hide Bounded, Locked, OwnedOnce, Accounted, Informed, Attending;
    StepFrame(s, t, choice, s');
    AttendingAt(s.threads, t, s'.threads[t]);
    ActAttended(See(s, t), t, choice);
  }

  lemma {:induction false} ActAttended(v: Sight, t: nat, choice: Pc)
    requires Act(v, t, choice).Some?
    ensures var v' := Act(v, t, choice).value;
            || v'.toService == []
            || |v'.toService| - |v.toService| <= v'.permits - v.permits + Attends(v'.pc) - Attends(v.pc)
  {
  }

  lemma {:induction false} AtLink(s: State, t: nat)
    requires Inv(s) && t < |s.threads|
    ensures s.threads[t].StoreLink? ==>
              var c := s.threads[t].c;
              c !in s.toService && forall u :: 0 <= u < |s.threads| ==> !Services(s.threads[u], c)
  {
    if s.threads[t].StoreLink? {
      assert Informed(s, t) && Accounted(s, s.threads[t].c);
    }
  }

  /** The invariant holds after every step of every thread. */
  lemma {:induction false} StepKeeps(s: State, t: nat, choice: Pc, s': State)
    requires Inv(s) && Goes(s, t, choice, s') && Orderly(s, t)
    ensures Inv(s')
  {
    hide Act, Next, Attending, Bounded, Locked, OwnedOnce, Accounted, Informed, Orderly;
    StepFrame(s, t, choice, s');
    StepBounded(s, t, choice, s');
    StepHolders(s, t, choice, s');
    StepAttended(s, t, choice, s');
    AtLink(s, t);
    ActNoRepeats(See(s, t), t, choice);
    forall c, u | 0 <= c < |s.conns| && 0 <= u < |s.threads| ensures Locked(s', c, u) {
      StepLocked(s, t, choice, s', c, u);
    }
    forall c, u, w | 0 <= c < |s.conns| && 0 <= u < |s.threads| && 0 <= w < |s.threads| ensures OwnedOnce(s', c, u, w) {
      StepOwnedOnce(s, t, choice, s', c, u, w);
    }
    forall c | 0 <= c < |s.conns| ensures Accounted(s', c) { StepAccounted(s, t, choice, s', c); }
    forall u | 0 <= u < |s.threads| ensures Informed(s', u) { StepInformed(s, t, choice, s', u); }
  }

  // ----- whole runs -----

  ghost predicate Initial(s: State) {
    && s.toService == [] && s.listLock == None
    && (forall c :: 0 <= c < |s.conns| ==> s.conns[c] == NO_CONN)
    && (forall t :: 0 <= t < |s.threads| ==> s.threads[t] == Ready)
  }

  /** A turn of the schedule: a thread, and what it chooses. */
  datatype Turn = Turn(t: nat, choice: Pc)

  /** The state after a turn; a thread that has to wait does not move. */
  function After(s: State, turn: Turn): State
    requires Bounded(s)
  {
    if turn.t >= |s.threads| then s
    else
      match Next(s, turn.t, turn.choice)
      case None => s
      case Some(s') => s'
  }

  lemma {:induction false} AfterBounded(s: State, turn: Turn)
    requires Bounded(s)
    ensures Bounded(After(s, turn))
  {
    if turn.t < |s.threads| && Next(s, turn.t, turn.choice).Some? {
      StepBounded(s, turn.t, turn.choice, After(s, turn));
    }
  }

  ghost function Run(s: State, schedule: seq<Turn>): State
    requires Bounded(s)
    decreases |schedule|
  {
    if schedule == [] then s
    else
      AfterBounded(s, schedule[0]);
      Run(After(s, schedule[0]), schedule[1..])
  }

  /** Every connection's set-up ends before anything has been stored for it, unless the thread that
      stores it has yet to look at the work state. */
  ghost predicate OrderlyRun(s: State, schedule: seq<Turn>)
    requires Bounded(s)
    decreases |schedule|
  {
    schedule == [] || (
      AfterBounded(s, schedule[0]);
      && (schedule[0].t < |s.threads| ==> Orderly(s, schedule[0].t))
      && OrderlyRun(After(s, schedule[0]), schedule[1..]))
  }

  lemma {:induction false} NobodyAttends(ts: seq<Pc>)
    requires forall t :: 0 <= t < |ts| ==> ts[t] == Ready
    ensures Attending(ts) == 0
  {
    if ts != [] { NobodyAttends(ts[1..]); }
  }

  lemma {:induction false} InitialInv(s: State)
    requires Initial(s)
    ensures Inv(s)
  {
    NobodyAttends(s.threads);
  }

  /** The invariant holds in every state of every interleaving. */
  lemma {:induction false} RunKeeps(s: State, schedule: seq<Turn>)
    requires Inv(s) && OrderlyRun(s, schedule)
    ensures Inv(Run(s, schedule))
    decreases |schedule|
  {
    hide Inv, Bounded, Orderly, Next;
    assert Bounded(s) by { InvBounded(s); }
    if schedule != [] {
      var turn := schedule[0];
      if turn.t < |s.threads| && Next(s, turn.t, turn.choice).Some? {
        StepKeeps(s, turn.t, turn.choice, After(s, turn));
      }
      RunKeeps(After(s, turn), schedule[1..]);
    }
  }

  lemma {:induction false} InvBounded(s: State)
    requires Inv(s)
    ensures Bounded(s)
  {
  }

  ghost predicate Reachable(s: State) {
    exists s0, schedule :: Initial(s0) && Inv(s0) && OrderlyRun(s0, schedule) && Run(s0, schedule) == s
  }

  lemma {:induction false} ReachableInv(s: State)
    requires Reachable(s)
    ensures Inv(s)
  {
    var s0, schedule :| Initial(s0) && Inv(s0) && OrderlyRun(s0, schedule) && Run(s0, schedule) == s;
    RunKeeps(s0, schedule);
  }

  // ----- what follows for every reachable state -----

  /** No lost wakeup: a connection with messages that was not shut down is on the list or serviced, or
      the thread that stores them, which still holds the connection's mutex, is about to list it. */
  lemma {:induction false} NoLostWakeup(s: State, c: nat)
    requires Reachable(s) && c < |s.conns|
    requires s.conns[c].msgs != [] && s.conns[c].work != Shutdown && s.conns[c].work != Starting
    ensures c in s.toService || Serviced(s, c) || (BeingLinked(s, c) && s.conns[c].lock.Some?)
  {
    ReachableInv(s);
    assert Accounted(s, c);
    if BeingLinked(s, c) {
      var t :| 0 <= t < |s.threads| && Linking(s.threads[t], c);
      assert Locked(s, c, t);
    }
  }

  /** An idle connection whose mutex is free has no messages and nobody who services it. */
  lemma {:induction false} IdleIsEmpty(s: State, c: nat)
    requires Reachable(s) && c < |s.conns| && s.conns[c].work == Idle && s.conns[c].lock == None
    ensures s.conns[c].msgs == [] && c !in s.toService && !Serviced(s, c)
  {
    ReachableInv(s);
    assert Accounted(s, c);
    forall t | 0 <= t < |s.threads| ensures !Linking(s.threads[t], c) && s.threads[t] != StoreSet(c) {
      assert Locked(s, c, t);
    }
  }

  /** A connection is listed at most once, serviced by at most one worker, and never both. */
  lemma {:induction false} OneOwner(s: State, i: nat, j: nat, t: nat, u: nat, c: nat)
    requires Reachable(s) && c < |s.conns| && i < |s.toService| && j < |s.toService|
    requires t < |s.threads| && u < |s.threads|
    ensures s.toService[i] == c && s.toService[j] == c ==> i == j
    ensures Services(s.threads[t], c) && Services(s.threads[u], c) ==> t == u
    ensures Services(s.threads[t], c) ==> s.toService[i] != c
  {
    ReachableInv(s);
    assert OwnedOnce(s, c, t, u);
  }

  /** A listed connection has a worker coming: either one can pass the semaphore, or one has passed it,
      or the thread that listed it is about to release it; and there are as many of these as listed. */
  lemma {:induction false} EnoughWakeups(s: State)
    requires Reachable(s)
    ensures |s.toService| <= s.permits + Attending(s.threads)
    ensures s.toService != [] && (forall t :: 0 <= t < |s.threads| ==> Attends(s.threads[t]) == 0) ==> s.permits > 0
  {
    ReachableInv(s);
    if forall t :: 0 <= t < |s.threads| ==> Attends(s.threads[t]) == 0 { NoneAttend(s.threads); }
  }

  lemma {:induction false} NoneAttend(ts: seq<Pc>)
    requires forall t :: 0 <= t < |ts| ==> Attends(ts[t]) == 0
    ensures Attending(ts) == 0
  {
    if ts != [] { NoneAttend(ts[1..]); }
  }

  /** No deadlock: while any mutex is held, a thread that holds one can move. */
  lemma {:induction false} NoDeadlock(s: State, c: nat, choice: Pc)
    requires Reachable(s) && c < |s.conns| && (s.conns[c].lock.Some? || s.listLock.Some?)
    ensures Inv(s) && exists t :: 0 <= t < |s.threads| && Next(s, t, choice).Some?
                                  && (InMessages(s.threads[t], c) || InList(s.threads[t]))
  {
    hide Act, InMessages, InList, Attending, OwnedOnce, Accounted, Informed;
    ReachableInv(s);
    var t := if s.listLock.Some? then s.listLock.value else s.conns[c].lock.value;
    assert Locked(s, c, t);
    ActMoves(See(s, t), t, choice, c);
    assert Next(s, t, choice).Some?;
  }

  /** A thread that holds a mutex waits at most for the mutex of the list. */
  lemma {:induction false} ActMoves(v: Sight, t: nat, choice: Pc, c: nat)
    requires InList(v.pc) || (InMessages(v.pc, c) && v.listLock == None)
    ensures Act(v, t, choice).Some? && !v.pc.Ready?
  {
  }

  /** A connection leaves the shut-down state only if its set-up ends after its shutdown. */
  lemma {:induction false} ShutdownStays(s: State, t: nat, choice: Pc, s': State, c: nat)
    requires Inv(s) && Goes(s, t, choice, s') && c < |s.conns| && s.conns[c].work == Shutdown
    ensures |s'.conns| == |s.conns|
    ensures s'.conns[c].work != Shutdown <==> s.threads[t] == InitSet(c)
  {
    hide Act;
    StepFrame(s, t, choice, s');
    assert Informed(s, t);
    ActWork(See(s, t), t, choice);
    ActInit(See(s, t), t, choice);
  }

  lemma {:induction false} ActInit(v: Sight, t: nat, choice: Pc)
    requires Act(v, t, choice).Some?
    ensures v.pc.InitSet? ==> Act(v, t, choice).value.conn.work == Idle
  {
  }

  /** Every change of the work state of `c` is made under its mutex, and a thread about to link it knows it idle. */
  ghost predicate Guarded(s: State, c: nat) {
    && Bounded(s) && c < |s.conns|
    && forall t :: 0 <= t < |s.threads| ==>
         && s.threads[t] != InitSet(c)
         && (s.conns[c].lock == Some(t) <==> InMessages(s.threads[t], c))
         && (Linking(s.threads[t], c) && s.threads[t] != StoreTest(c) ==> s.conns[c].work == Idle)
  }

  lemma {:induction false} InvGuards(s: State, c: nat)
    requires Inv(s) && c < |s.conns| && forall t :: 0 <= t < |s.threads| ==> s.threads[t] != InitSet(c)
    ensures Guarded(s, c)
  {
    forall t | 0 <= t < |s.threads|
      ensures s.conns[c].lock == Some(t) <==> InMessages(s.threads[t], c)
      ensures Linking(s.threads[t], c) && s.threads[t] != StoreTest(c) ==> s.conns[c].work == Idle
    {
      assert Locked(s, c, t) && Informed(s, t);
    }
  }

  lemma {:induction false} ActGuarded(v: Sight, t: nat, choice: Pc, c: nat)
    requires Act(v, t, choice).Some? && choice != InitSet(c) && v.pc != InitSet(c)
    requires Subject(v.pc) == Some(c) ==> (v.conn.lock == Some(t) <==> InMessages(v.pc, c))
    requires Linking(v.pc, c) && v.pc != StoreTest(c) ==> v.conn.work == Idle
    ensures var v' := Act(v, t, choice).value;
            && v'.pc != InitSet(c)
            && (Linking(v'.pc, c) && v'.pc != StoreTest(c) ==> Subject(v.pc) == Some(c) && v'.conn.work == Idle)
            && (Subject(v.pc) == Some(c) && v'.conn.work != v.conn.work ==> InMessages(v.pc, c))
            && (Subject(v.pc) == Some(c) && v.conn.work == Shutdown ==> v'.conn.work == Shutdown)
  {
  }

  lemma {:induction false} ActShuts(v: Sight, t: nat, choice: Pc, c: nat)
    requires Act(v, t, choice).Some?
    ensures var v' := Act(v, t, choice).value;
            && (v.pc == ShutSet(c) ==> v'.conn.work == Shutdown)
            && (AboutToShut(v.pc, c) && !AboutToShut(v'.pc, c) ==> v'.conn.work == Shutdown)
  {
  }

  /** The thread is shutting `c` down and has not done so yet. */
  ghost predicate AboutToShut(pc: Pc, c: nat) {
    pc == ShutLock(c) || pc == ShutLockList(c) || pc == ShutSet(c)
  }

  lemma {:induction false} LinksHold(pc: Pc, c: nat)
    ensures Linking(pc, c) ==> InMessages(pc, c)
    ensures InMessages(pc, c) || Linking(pc, c) || AboutToShut(pc, c) ==> Subject(pc) == Some(c)
  {
  }

  lemma {:induction false} GuardedStep(s: State, t: nat, choice: Pc, s': State, c: nat)
    requires Guarded(s, c) && Goes(s, t, choice, s') && choice != InitSet(c)
    ensures Guarded(s', c) && |s'.threads| == |s.threads|
    ensures s.conns[c].work == Shutdown ==> s'.conns[c].work == Shutdown
    ensures s.threads[t] == ShutSet(c) ==> s'.conns[c].work == Shutdown
    ensures AboutToShut(s.threads[t], c) && !AboutToShut(s'.threads[t], c) ==> s'.conns[c].work == Shutdown
    ensures forall u :: 0 <= u < |s.threads| && u != t ==> s'.threads[u] == s.threads[u]
  {
    hide Act, InMessages, Linking, AboutToShut, Bounded;
    StepFrame(s, t, choice, s');
    StepBounded(s, t, choice, s');
    var v, v' := See(s, t), Act(See(s, t), t, choice).value;
    LinksHold(v.pc, c);
    ActGuarded(v, t, choice, c);
    ActShuts(v, t, choice, c);
    GuardedLocks(v, t, choice, c);
    forall u | 0 <= u < |s.threads| {
      LinksHold(s.threads[u], c);
    }
  }

  lemma {:induction false} GuardedLocks(v: Sight, t: nat, choice: Pc, c: nat)
    requires Act(v, t, choice).Some?
    requires Subject(v.pc) == Some(c) ==> (v.conn.lock == Some(t) <==> InMessages(v.pc, c))
    ensures var v' := Act(v, t, choice).value;
            && (Subject(v.pc) == Some(c) ==>
                  && (v'.conn.lock == Some(t) <==> InMessages(v'.pc, c))
                  && (v'.conn.lock == v.conn.lock || {v'.conn.lock, v.conn.lock} == {Some(t), None}))
            && (Subject(v.pc) != Some(c) ==> !InMessages(v.pc, c) && !InMessages(v'.pc, c))
  {
  }

  /** A shutdown shuts its connection down: in every run in which no set-up of `c` ends, a thread that was at the
      start of a shutdown of `c` either has not come to change it or has left it shut down; and so it stays. */
  lemma {:induction false} ShutsDown(s: State, schedule: seq<Turn>, t: nat, c: nat)
    requires Guarded(s, c) && t < |s.threads| && (AboutToShut(s.threads[t], c) || s.conns[c].work == Shutdown)
    requires forall i :: 0 <= i < |schedule| ==> schedule[i].choice != InitSet(c)
    ensures var end := Run(s, schedule);
            && Guarded(end, c) && t < |end.threads|
            && (AboutToShut(end.threads[t], c) || end.conns[c].work == Shutdown)
            && (s.conns[c].work == Shutdown ==> end.conns[c].work == Shutdown)
            && (end.threads[t] == Ready ==> end.conns[c].work == Shutdown)
    decreases |schedule|
  {
    hide Next, AboutToShut;
    if schedule == [] {
      LinksHold(s.threads[t], c);
    } else {
      var turn := schedule[0];
      AfterBounded(s, turn);
      if turn.t < |s.threads| && Next(s, turn.t, turn.choice).Some? {
        GuardedStep(s, turn.t, turn.choice, After(s, turn), c);
      }
      ShutsDown(After(s, turn), schedule[1..], t, c);
    }
  }

  /** What a shutdown is for: a message stored for a connection shut down does not list it, a worker that asks
      stops, and a worker that has stopped is ready for another connection. */
  lemma {:induction false} ShutEnds(s: State, t: nat, choice: Pc, s': State, c: nat)
    requires Goes(s, t, choice, s') && c < |s.conns|
    ensures s.threads[t] == StoreTest(c) ==>
              (s'.threads[t] == StoreLockList(c) <==> s.conns[c].work == Idle) &&
              (s'.threads[t] == StoreUnlock(c) <==> s.conns[c].work != Idle)
    ensures s.threads[t] == ContinueTest(c) && s.conns[c].work == Shutdown ==>
              s'.threads[t] == ContinueUnlock(c, true) && s'.conns == s.conns
    ensures s.threads[t] == ContinueUnlock(c, true) ==> s'.threads[t] == Ready
  {
    StepFrame(s, t, choice, s');
  }

  /** Nobody is about to serve the connection. */
  ghost predicate Left(s: State, c: nat) {
    && Guarded(s, c) && s.conns[c].work == Shutdown && c !in s.toService
    && forall t :: 0 <= t < |s.threads| ==> !Services(s.threads[t], c)
  }

  /** Once it is shut down, unlisted and unserviced, it is never listed and no worker comes to it again, whatever is
      stored for it: none of its messages is taken. */
  lemma {:induction false} ShutIsLeft(s: State, schedule: seq<Turn>, c: nat)
    requires Left(s, c) && forall i :: 0 <= i < |schedule| ==> schedule[i].choice != InitSet(c)
    ensures Left(Run(s, schedule), c) && Taken(s, schedule, c) == []
    decreases |schedule|
  {
    hide Next, Act, Services, Linking, InMessages, Bounded;
    if schedule != [] {
      var turn, s1 := schedule[0], After(s, schedule[0]);
      assert Bounded(s) by { LeftBounded(s, c); }
      AfterBounded(s, turn);
      AfterMessages(s, turn, c);
      if turn.t < |s.threads| && Next(s, turn.t, turn.choice).Some? {
        GuardedStep(s, turn.t, turn.choice, s1, c);
        StepFrame(s, turn.t, turn.choice, s1);
        ActServices(See(s, turn.t), turn.t, turn.choice, c);
        ActList(See(s, turn.t), turn.t, turn.choice, c);
      }
      LinkKnows(s, c);
      ServesIt(c);
      ShutIsLeft(s1, schedule[1..], c);
    }
  }

  lemma {:induction false} LeftBounded(s: State, c: nat)
    requires Left(s, c)
    ensures Bounded(s)
  {
  }

  lemma {:induction false} LinkKnows(s: State, c: nat)
    requires Guarded(s, c) && s.conns[c].work == Shutdown
    ensures forall t :: 0 <= t < |s.threads| ==> s.threads[t] != StoreLink(c)
  {
    forall t | 0 <= t < |s.threads| ensures s.threads[t] != StoreLink(c) {
      assert s.threads[t] == StoreLink(c) ==> Linking(s.threads[t], c);
    }
  }

  lemma {:induction false} ServesIt(c: nat)
    ensures Services(Serve(c), c)
  {
  }

  /** The end of set-up, which takes no mutex, is safe exactly when nothing has been stored for the
      connection or the thread that stores it has yet to look. */
  lemma {:induction false} SetUpIsSafe(s: State, t: nat, choice: Pc, s': State)
    requires Inv(s) && Goes(s, t, choice, s') && s.threads[t].InitSet?
    requires s.conns[s.threads[t].c].work == Starting
    ensures Inv(s') <==> s.conns[s.threads[t].c].msgs == []
                         || exists u :: 0 <= u < |s.threads| && s.threads[u] == StoreTest(s.threads[t].c)
  {
    var c := s.threads[t].c;
    if Orderly(s, t) { StepKeeps(s, t, choice, s'); }
    if Inv(s') && s.conns[c].msgs != [] {
      assert Accounted(s', c);
      var u :| 0 <= u < |s'.threads| && Linking(s'.threads[u], c);
      LinksUninformed(s, u, c);
    }
  }

  lemma {:induction false} LinksUninformed(s: State, u: nat, c: nat)
    requires Inv(s) && c < |s.conns| && s.conns[c].work == Starting && u < |s.threads| && Linking(s.threads[u], c)
    ensures s.threads[u] == StoreTest(c)
  {
    assert Informed(s, u);
  }

  lemma {:induction false} Unroll(s: State, turn: Turn, v: Sight, schedule: seq<Turn>)
    requires Bounded(s) && turn.t < |s.threads|
    requires s.threads[turn.t].Ready? ==> Subject(turn.choice) == Some(0) && s.conns != []
    requires Act(See(s, turn.t), turn.t, turn.choice) == Some(v)
    ensures Bounded(Put(s, turn.t, v)) && Run(s, [turn] + schedule) == Run(Put(s, turn.t, v), schedule)
  {
    hide Act;
    AfterBounded(s, turn);
    assert ([turn] + schedule)[1..] == schedule;
  }

  /** The run of a thread that stores a failed message for a connection that is being set up. */
  lemma {:induction false} StoredEarly(s0: State, m: Message, rest: seq<Turn>) returns (s: State)
    requires s0 == State([NO_CONN], [Ready, Ready], None, [], 0) && m.failed
    ensures s.conns == [Conn(Starting, [m], None)] && s.threads == [Ready, Ready]
    ensures s.listLock == None && s.toService == [] && s.permits == 0
    ensures var store := Turn(0, StoreEnter(0, m, false));
            Bounded(s) && Run(s0, [store] + ([store] + ([store] + ([store] + ([store] + rest))))) == Run(s, rest)
  {
    var k := NO_CONN;
    var store := Turn(0, StoreEnter(0, m, false));
    var v1 := Sight(StoreEnter(0, m, false), k, None, [], 0);
    var v2 := v1.(pc := StoreAdd(0, m, false), conn := k.(lock := Some(0)));
    var v3 := v1.(pc := StoreTest(0), conn := k.(lock := Some(0), msgs := k.msgs + [m]));
    assert k.msgs + [m] == [m];
    var v4 := v3.(pc := StoreUnlock(0));
    var v5 := v4.(pc := Ready, conn := v4.conn.(lock := None));
    var s1 := Put(s0, 0, v1);
    Unroll(s0, store, v1, [store] + ([store] + ([store] + ([store] + rest))));
    var s2 := Put(s1, 0, v2);
    Unroll(s1, store, v2, [store] + ([store] + ([store] + rest)));
    var s3 := Put(s2, 0, v3);
    Unroll(s2, store, v3, [store] + ([store] + rest));
    var s4 := Put(s3, 0, v4);
    Unroll(s3, store, v4, [store] + rest);
    s := Put(s4, 0, v5);
    Unroll(s4, store, v5, rest);
    assert s.conns == [Conn(Starting, [m], None)];
  }

  /** A wakeup is lost where that condition fails: a message without a positive length is stored while
      its connection is still being set up, set-up ends, and nobody will look at the connection. */
  lemma {:induction false} WakeupLost() returns (s0: State, schedule: seq<Turn>)
    ensures Initial(s0) && Inv(s0)
    ensures var s := Run(s0, schedule);
            && |s.conns| == 1 && s.conns[0].work == Idle && s.conns[0].msgs != [] && s.conns[0].lock == None
            && s.toService == [] && s.permits == 0 && s.threads == [Ready, Ready] && Unattended(s, 0)
  {
    hide Act;
    var m := Message(0, true);
    s0 := State([NO_CONN], [Ready, Ready], None, [], 0);
    InitialInv(s0);
    var store, rest := Turn(0, StoreEnter(0, m, false)), Turn(1, InitSet(0));
    schedule := [store] + ([store] + ([store] + ([store] + ([store] + [rest, rest]))));
    var s5 := StoredEarly(s0, m, [rest, rest]);
    SetUpEnds(s5, m);
  }

  lemma {:induction false} SetUpEnds(s5: State, m: Message)
    requires s5 == State([Conn(Starting, [m], None)], [Ready, Ready], None, [], 0)
    ensures var rest := Turn(1, InitSet(0));
            Bounded(s5) && Run(s5, [rest, rest]) == State([Conn(Idle, [m], None)], [Ready, Ready], None, [], 0)
  {
    var rest := Turn(1, InitSet(0));
    var v6 := Sight(InitSet(0), NO_CONN, None, [], 0);
    var v7 := Sight(Ready, Conn(Idle, [m], None), None, [], 0);
    assert [rest, rest] == [rest] + ([rest] + []);
    Unroll(s5, rest, v6, [rest] + []);
    var s6 := Put(s5, 1, v6);
    Unroll(s6, rest, v7, []);
    assert Put(s6, 1, v7) == State([Conn(Idle, [m], None)], [Ready, Ready], None, [], 0);
  }

  /** What is stored for `c` while it is being set up is without a positive length. */
  ghost predicate EarlyFailed(s: State, c: nat) {
    && Bounded(s) && c < |s.conns|
    && (s.conns[c].work == Starting ==>
          && (forall m :: m in s.conns[c].msgs ==> m.failed)
          && forall t :: 0 <= t < |s.threads| ==>
               s.threads[t].StoreAdd? && s.threads[t].c == c ==> s.threads[t].m.failed)
  }

  lemma {:induction false} ActEarly(v: Sight, t: nat, choice: Pc)
    requires Act(v, t, choice).Some?
    ensures var v' := Act(v, t, choice).value;
            && (v'.conn.work == Starting ==> v.conn.work == Starting)
            && (v'.pc.StoreAdd? ==> v.pc == StoreEnter(v'.pc.c, v'.pc.m, v'.pc.atTop) &&
                                    (v.conn.work == Starting ==> v'.pc.m.failed))
  {
  }

  lemma {:induction false} ActAdds(v: Sight, t: nat, choice: Pc)
    requires Act(v, t, choice).Some?
    ensures forall m :: m in Act(v, t, choice).value.conn.msgs ==> m in v.conn.msgs || (v.pc.StoreAdd? && m == v.pc.m)
  {
  }

  lemma {:induction false} EarlyStep(s: State, t: nat, choice: Pc, s': State, c: nat)
    requires EarlyFailed(s, c) && Goes(s, t, choice, s')
    ensures EarlyFailed(s', c)
  {
    hide Next, Act, Bounded;
    StepBounded(s, t, choice, s');
    StepFrame(s, t, choice, s');
    ActEarly(See(s, t), t, choice);
    ActAdds(See(s, t), t, choice);
    ActSubject(See(s, t), t, choice);
    if s'.conns[c].work == Starting {
      forall m | m in s'.conns[c].msgs ensures m.failed {
        assert Subject(s.threads[t]) != Some(c) ==> m in s.conns[c].msgs;
      }
    }
  }

  /** A message with a positive length waits until the connection is set up: the only ones stored before that, in
      any run, are those without. */
  lemma {:induction false} EarlyAreFailed(s: State, schedule: seq<Turn>, c: nat)
    requires EarlyFailed(s, c)
    ensures EarlyFailed(Run(s, schedule), c)
    decreases |schedule|
  {
    hide Next, Act;
    if schedule != [] {
      var turn, s1 := schedule[0], After(s, schedule[0]);
      AfterBounded(s, turn);
      if turn.t < |s.threads| && Next(s, turn.t, turn.choice).Some? {
        EarlyStep(s, turn.t, turn.choice, s1, c);
      }
      EarlyAreFailed(s1, schedule[1..], c);
    }
  }

  /** No thread is about the connection, and no worker can come to it through the list. */
  ghost predicate Unattended(s: State, c: nat) {
    && Bounded(s) && c < |s.conns| && c !in s.toService
    && forall t :: 0 <= t < |s.threads| ==> Subject(s.threads[t]) != Some(c)
  }

  /** So it stays, with its messages, until some thread begins an operation about it: a message that is stored for
      it later, its shutdown or its removal. */
  lemma {:induction false} LostStays(s: State, schedule: seq<Turn>, c: nat)
    requires Unattended(s, c) && forall i :: 0 <= i < |schedule| ==> Subject(schedule[i].choice) != Some(c)
    ensures var end := Run(s, schedule); Unattended(end, c) && end.conns[c] == s.conns[c]
    decreases |schedule|
  {
    hide Next, Act, Subject;
    if schedule != [] {
      var turn, s1 := schedule[0], After(s, schedule[0]);
      AfterBounded(s, turn);
      if turn.t < |s.threads| && Next(s, turn.t, turn.choice).Some? {
        StepFrame(s, turn.t, turn.choice, s1);
        ActSubject(See(s, turn.t), turn.t, turn.choice);
        ActList(See(s, turn.t), turn.t, turn.choice, c);
        LinksItsOwn(s.threads[turn.t]);
      }
      LostStays(s1, schedule[1..], c);
    }
  }

  lemma {:induction false} LinksItsOwn(pc: Pc)
    ensures forall c: nat :: pc == StoreLink(c) ==> Subject(pc) == Some(c)
  {
  }

  // ----- an operation that nobody disturbs -----

  /** The state after `n` turns of one thread. */
  ghost function Alone(s: State, turn: Turn, n: nat): State
    requires Bounded(s)
    decreases n
  {
    if n == 0 then s
    else
      AfterBounded(s, turn);
      Alone(After(s, turn), turn, n - 1)
  }

  /** It is the run in which that thread has every turn. */
  lemma {:induction false} AloneIsRun(s: State, turn: Turn, n: nat)
    requires Bounded(s)
    ensures Alone(s, turn, n) == Run(s, seq(n, i => turn))
    decreases n
  {
    hide After, Bounded;
    if n > 0 {
      AfterBounded(s, turn);
      AloneIsRun(After(s, turn), turn, n - 1);
      assert seq(n, i => turn)[1..] == seq(n - 1, i => turn);
    }
  }

  /** The state in which thread `t` sees `v`, in connection `c`, and all else is as in `s`. */
  ghost function Seen(s: State, t: nat, c: nat, v: Sight): State
    requires t < |s.threads| && c < |s.conns|
  {
    State(s.conns[c := v.conn], s.threads[t := v.pc], v.listLock, v.toService, v.permits)
  }

  /** One step of an operation about `c`, and what is left of the turns. */
  lemma {:induction false} Moves(s: State, t: nat, c: nat, choice: Pc, n: nat, v: Sight, v': Sight)
    requires t < |s.threads| && c < |s.conns| && Bounded(Seen(s, t, c, v)) && n > 0
    requires Subject(v.pc) == Some(c) && Act(v, t, choice) == Some(v')
    ensures Bounded(Seen(s, t, c, v'))
    ensures Alone(Seen(s, t, c, v), Turn(t, choice), n) == Alone(Seen(s, t, c, v'), Turn(t, choice), n - 1)
  {
    hide Act;
    var s0, turn := Seen(s, t, c, v), Turn(t, choice);
    AfterBounded(s0, turn);
    assert See(s0, t) == v;
    assert After(s0, turn) == Seen(s, t, c, v') by {
      assert s.conns[c := v.conn][c := v'.conn] == s.conns[c := v'.conn];
      assert s.threads[t := v.pc][t := v'.pc] == s.threads[t := v'.pc];
    }
  }

  /** The beginning of an operation about `c`. */
  lemma {:induction false} Begins(s: State, t: nat, c: nat, choice: Pc, n: nat)
    requires Bounded(s) && t < |s.threads| && s.threads[t] == Ready && c < |s.conns| && n > 0
    requires Entry(choice) && Subject(choice) == Some(c)
    ensures var v := Sight(choice, s.conns[c], s.listLock, s.toService, s.permits);
            && Bounded(Seen(s, t, c, v))
            && Alone(s, Turn(t, choice), n) == Alone(Seen(s, t, c, v), Turn(t, choice), n - 1)
  {
    AfterBounded(s, Turn(t, choice));
    var v := Sight(choice, s.conns[c], s.listLock, s.toService, s.permits);
    assert After(s, Turn(t, choice)) == Seen(s, t, c, v);
  }

  /** Storing a message that nothing disturbs puts it at the end, or at the top; if the connection was idle it is then
      listed last and working, one more worker may pass, and every mutex is free again. */
  lemma {:induction false} StoresAlone(s: State, t: nat, c: nat, m: Message, atTop: bool)
    requires Bounded(s) && t < |s.threads| && s.threads[t] == Ready && c < |s.conns|
    requires s.conns[c].lock == None && s.listLock == None && (s.conns[c].work == Starting ==> m.failed)
    ensures var k, turn := s.conns[c], Turn(t, StoreEnter(c, m, atTop));
            var ms := if atTop then [m] + k.msgs else k.msgs + [m];
            if k.work == Idle then
              Alone(s, turn, 10) ==
              Seen(s, t, c, Sight(Ready, Conn(Working, ms, None), None, s.toService + [c], s.permits + 1))
            else
              Alone(s, turn, 5) == Seen(s, t, c, Sight(Ready, k.(msgs := ms), None, s.toService, s.permits))
  {
    hide Alone, Seen, Bounded;
    var k, choice := s.conns[c], StoreEnter(c, m, atTop);
    var ms := if atTop then [m] + k.msgs else k.msgs + [m];
    var n := if k.work == Idle then 10 else 5;
    Begins(s, t, c, choice, n);
    var v0 := Sight(choice, k, None, s.toService, s.permits);
    var v1 := v0.(pc := StoreAdd(c, m, atTop), conn := k.(lock := Some(t)));
    var v2 := v0.(pc := StoreTest(c), conn := k.(lock := Some(t), msgs := ms));
    Moves(s, t, c, choice, n - 1, v0, v1);
    Moves(s, t, c, choice, n - 2, v1, v2);
    if k.work == Idle {
      ListsAlone(s, t, c, choice, v2);
    } else {
      var v3 := v2.(pc := StoreUnlock(c));
      Moves(s, t, c, choice, 2, v2, v3);
      Moves(s, t, c, choice, 1, v3, v3.(pc := Ready, conn := k.(msgs := ms)));
      AloneStays(Seen(s, t, c, v3.(pc := Ready, conn := k.(msgs := ms))), Turn(t, choice));
    }
  }

  lemma {:induction false} AloneStays(s: State, turn: Turn)
    requires Bounded(s)
    ensures Alone(s, turn, 0) == s
  {
  }

  lemma {:induction false} ListsAlone(s: State, t: nat, c: nat, choice: Pc, v: Sight)
    requires t < |s.threads| && c < |s.conns| && Bounded(Seen(s, t, c, v))
    requires v.pc == StoreTest(c) && v.conn.work == Idle && v.listLock == None
    ensures Alone(Seen(s, t, c, v), Turn(t, choice), 7) ==
            Seen(s, t, c, Sight(Ready, Conn(Working, v.conn.msgs, None), None, v.toService + [c], v.permits + 1))
  {
    hide Alone, Seen, Bounded;
    var v1 := v.(pc := StoreLockList(c));
    var v2 := v.(pc := StoreLink(c), listLock := Some(t));
    var v3 := v2.(pc := StoreSet(c), toService := v.toService + [c]);
    Moves(s, t, c, choice, 7, v, v1);
    Moves(s, t, c, choice, 6, v1, v2);
    Moves(s, t, c, choice, 5, v2, v3);
    WakesAlone(s, t, c, choice, v3);
  }

  lemma {:induction false} WakesAlone(s: State, t: nat, c: nat, choice: Pc, v: Sight)
    requires t < |s.threads| && c < |s.conns| && Bounded(Seen(s, t, c, v)) && v.pc == StoreSet(c)
    ensures Alone(Seen(s, t, c, v), Turn(t, choice), 4) ==
            Seen(s, t, c, Sight(Ready, Conn(Working, v.conn.msgs, None), None, v.toService, v.permits + 1))
  {
    hide Alone, Seen, Bounded;
    var v1 := v.(pc := StoreUnlockList(c), conn := v.conn.(work := Working));
    var v2 := v1.(pc := StoreWake(c), listLock := None);
    var v3 := v2.(pc := StoreUnlock(c), permits := v.permits + 1);
    var v4 := v3.(pc := Ready, conn := v3.conn.(lock := None));
    Moves(s, t, c, choice, 4, v, v1);
    Moves(s, t, c, choice, 3, v1, v2);
    Moves(s, t, c, choice, 2, v2, v3);
    Moves(s, t, c, choice, 1, v3, v4);
    AloneStays(Seen(s, t, c, v4), Turn(t, choice));
  }

  /** A shutdown that nothing disturbs changes the work state alone, and so does the end of a set-up. */
  lemma {:induction false} ShutsAlone(s: State, t: nat, c: nat)
    requires Bounded(s) && t < |s.threads| && s.threads[t] == Ready && c < |s.conns|
    ensures Alone(s, Turn(t, InitSet(c)), 2) == s.(conns := s.conns[c := s.conns[c].(work := Idle)])
    ensures s.conns[c].lock == None && s.listLock == None ==>
              Alone(s, Turn(t, ShutLock(c)), 6) == s.(conns := s.conns[c := s.conns[c].(work := Shutdown)])
  {
    hide Alone, Bounded;
    var k := s.conns[c];
    Begins(s, t, c, InitSet(c), 2);
    var v0 := Sight(InitSet(c), k, s.listLock, s.toService, s.permits);
    var v := v0.(pc := Ready, conn := k.(work := Idle));
    Moves(s, t, c, InitSet(c), 1, v0, v);
    AloneStays(Seen(s, t, c, v), Turn(t, InitSet(c)));
    assert Seen(s, t, c, v) == s.(conns := s.conns[c := k.(work := Idle)]);
    if k.lock == None && s.listLock == None {
      ShutAlone(s, t, c);
    }
  }

  lemma {:induction false} ShutAlone(s: State, t: nat, c: nat)
    requires Bounded(s) && t < |s.threads| && s.threads[t] == Ready && c < |s.conns|
    requires s.conns[c].lock == None && s.listLock == None
    ensures Alone(s, Turn(t, ShutLock(c)), 6) == s.(conns := s.conns[c := s.conns[c].(work := Shutdown)])
  {
    hide Alone, Bounded;
    var k, choice := s.conns[c], ShutLock(c);
    Begins(s, t, c, choice, 6);
    var v0 := Sight(choice, k, None, s.toService, s.permits);
    var v1 := v0.(pc := ShutLockList(c), conn := k.(lock := Some(t)));
    var v2 := v1.(pc := ShutSet(c), listLock := Some(t));
    var v3 := v2.(pc := ShutUnlockList(c), conn := v1.conn.(work := Shutdown));
    var v4 := v3.(pc := ShutUnlock(c), listLock := None);
    var v5 := v4.(pc := Ready, conn := k.(work := Shutdown));
    Moves(s, t, c, choice, 5, v0, v1);
    Moves(s, t, c, choice, 4, v1, v2);
    Moves(s, t, c, choice, 3, v2, v3);
    Moves(s, t, c, choice, 2, v3, v4);
    Moves(s, t, c, choice, 1, v4, v5);
    AloneStays(Seen(s, t, c, v5), Turn(t, choice));
    assert Seen(s, t, c, v5) == s.(conns := s.conns[c := k.(work := Shutdown)]);
  }

  lemma {:induction false} WithoutOne(left: seq<nat>, c: nat, right: seq<nat>)
    requires c !in left && c !in right
    ensures Without(left + [c] + right, c) == left + right
    decreases |left| + |right|
  {
    if left != [] {
      assert (left + [c] + right)[1..] == left[1..] + [c] + right;
      WithoutOne(left[1..], c, right);
    } else {
      assert ([] + [c] + right)[1..] == right && left + right == right;
      WithoutNone(right, c);
    }
  }

  lemma {:induction false} WithoutNone(list: seq<nat>, c: nat)
    requires c !in list
    ensures Without(list, c) == list
  {
    if list != [] { WithoutNone(list[1..], c); }
  }

  /** The removal of a connection shut down takes it off the list, wherever it stands, and leaves the others as
      they are. */
  lemma {:induction false} UndoneAlone(s: State, t: nat, c: nat, left: seq<nat>, right: seq<nat>)
    requires Bounded(s) && t < |s.threads| && s.threads[t] == Ready && c < |s.conns|
    requires s.conns[c].work == Shutdown && s.listLock == None
    requires s.toService == left + [c] + right && c !in left && c !in right
    ensures Alone(s, Turn(t, UndoTest(c)), 5) == s.(toService := left + right)
  {
    hide Alone, Bounded;
    var choice := UndoTest(c);
    WithoutOne(left, c, right);
    assert s.toService[|left|] == c;
    Begins(s, t, c, choice, 5);
    var v0 := Sight(choice, s.conns[c], None, s.toService, s.permits);
    var v1 := v0.(pc := UndoLockList(c));
    var v2 := v1.(pc := UndoRemove(c), listLock := Some(t));
    var v3 := v2.(pc := UndoUnlockList(c), toService := left + right);
    var v4 := v3.(pc := Ready, listLock := None);
    Moves(s, t, c, choice, 4, v0, v1);
    Moves(s, t, c, choice, 3, v1, v2);
    Moves(s, t, c, choice, 2, v2, v3);
    Moves(s, t, c, choice, 1, v3, v4);
    AloneStays(Seen(s, t, c, v4), Turn(t, choice));
    assert Seen(s, t, c, v4) == s.(toService := left + right);
  }

  /** The state in which thread `t`, which is about no connection, sees `v`. */
  ghost function Over(s: State, t: nat, v: Sight): State
    requires t < |s.threads|
  {
    State(s.conns, s.threads[t := v.pc], v.listLock, v.toService, v.permits)
  }

  lemma {:induction false} Waits(s: State, t: nat, choice: Pc, n: nat, v: Sight, v': Sight)
    requires t < |s.threads| && Bounded(Over(s, t, v)) && n > 0 && Subject(v.pc) == None && v.conn == NO_CONN
    requires v.pc.Ready? ==> Subject(choice) == None
    requires Act(v, t, choice) == Some(v')
    ensures Bounded(Over(s, t, v'))
    ensures Alone(Over(s, t, v), Turn(t, choice), n) == Alone(Over(s, t, v'), Turn(t, choice), n - 1)
  {
    hide Act;
    var s0, turn := Over(s, t, v), Turn(t, choice);
    AfterBounded(s0, turn);
    assert See(s0, t) == v;
    assert After(s0, turn) == Over(s, t, v') by {
      assert s.threads[t := v.pc][t := v'.pc] == s.threads[t := v'.pc];
    }
  }

  lemma {:induction false} PassesAlone(s: State, t: nat, n: nat)
    requires Bounded(s) && t < |s.threads| && s.threads[t] == Ready && n >= 3
    requires s.listLock == None && s.permits > 0
    ensures var v := Sight(WorkTake, NO_CONN, Some(t), s.toService, s.permits - 1);
            Bounded(Over(s, t, v)) && Alone(s, Turn(t, WorkWait), n) == Alone(Over(s, t, v), Turn(t, WorkWait), n - 3)
  {
    hide Alone, Bounded;
    var v := Sight(Ready, NO_CONN, None, s.toService, s.permits);
    var v1 := v.(pc := WorkLockList, permits := s.permits - 1);
    assert Over(s, t, v) == s;
    hide Over;
    Waits(s, t, WorkWait, n, v, v.(pc := WorkWait));
    Waits(s, t, WorkWait, n - 1, v.(pc := WorkWait), v1);
    Waits(s, t, WorkWait, n - 2, v1, v1.(pc := WorkTake, listLock := Some(t)));
  }

  /** A worker that nothing disturbs passes the semaphore and takes the first connection off the list. */
  lemma {:induction false} TakesAlone(s: State, t: nat, n: nat)
    requires Bounded(s) && t < |s.threads| && s.threads[t] == Ready && n >= 5
    requires s.listLock == None && s.permits > 0 && s.toService != []
    ensures var c := s.toService[0];
            var v := Sight(Serve(c), s.conns[c], None, s.toService[1..], s.permits - 1);
            && Bounded(Seen(s, t, c, v))
            && Alone(s, Turn(t, WorkWait), n) == Alone(Seen(s, t, c, v), Turn(t, WorkWait), n - 5)
  {
    hide Alone, Bounded;
    var c := s.toService[0];
    assert c < |s.conns| by { ListBounded(s); }
    PassesAlone(s, t, n);
    var v := Sight(WorkTake, NO_CONN, Some(t), s.toService, s.permits - 1);
    var v1 := v.(pc := WorkUnlockList(Some(c)), toService := s.toService[1..]);
    Waits(s, t, WorkWait, n - 3, v, v1);
    var v2 := v1.(conn := s.conns[c]);
    assert Over(s, t, v1) == Seen(s, t, c, v2);
    hide Over, Seen;
    Moves(s, t, c, WorkWait, n - 4, v2, v2.(pc := Serve(c), listLock := None));
  }

  lemma {:induction false} ListBounded(s: State)
    requires Bounded(s)
    ensures forall i :: 0 <= i < |s.toService| ==> s.toService[i] < |s.conns|
  {
  }

  /** A worker that takes a message and asks whether to go on. */
  lemma {:induction false} AsksAlone(s: State, t: nat, c: nat, choice: Pc, n: nat, v: Sight)
    requires t < |s.threads| && c < |s.conns| && Bounded(Seen(s, t, c, v)) && n >= 4 && !choice.Ready?
    requires v.pc == Serve(c) && v.conn.lock == None
    ensures var ms := if v.conn.msgs == [] then [] else v.conn.msgs[1..];
            var done := v.conn.work == Shutdown || ms == [];
            var work := if v.conn.work == Working && done then Idle else v.conn.work;
            var v' := v.(pc := if done then Ready else Serve(c), conn := Conn(work, ms, None));
            && Bounded(Seen(s, t, c, v'))
            && Alone(Seen(s, t, c, v), Turn(t, choice), n) == Alone(Seen(s, t, c, v'), Turn(t, choice), n - 4)
  {
    hide Alone, Bounded, Seen;
    var v1 := v.(pc := ContinueLock(c), conn := v.conn.(msgs := if v.conn.msgs == [] then [] else v.conn.msgs[1..]));
    Moves(s, t, c, choice, n, v, v1);
    TestsAlone(s, t, c, choice, n - 1, v1);
  }

  lemma {:induction false} TestsAlone(s: State, t: nat, c: nat, choice: Pc, n: nat, v: Sight)
    requires t < |s.threads| && c < |s.conns| && Bounded(Seen(s, t, c, v)) && n >= 3
    requires v.pc == ContinueLock(c) && v.conn.lock == None
    ensures var done := v.conn.work == Shutdown || v.conn.msgs == [];
            var work := if v.conn.work == Working && done then Idle else v.conn.work;
            var v' := v.(pc := if done then Ready else Serve(c), conn := v.conn.(work := work));
            && Bounded(Seen(s, t, c, v'))
            && Alone(Seen(s, t, c, v), Turn(t, choice), n) == Alone(Seen(s, t, c, v'), Turn(t, choice), n - 3)
  {
    hide Alone, Bounded, Seen;
    var done := v.conn.work == Shutdown || v.conn.msgs == [];
    var work := if v.conn.work == Working && done then Idle else v.conn.work;
    var v1 := v.(pc := ContinueTest(c), conn := v.conn.(lock := Some(t)));
    var v2 := v1.(pc := ContinueUnlock(c, done), conn := v1.conn.(work := work));
    Moves(s, t, c, choice, n, v, v1);
    Moves(s, t, c, choice, n - 1, v1, v2);
    Moves(s, t, c, choice, n - 2, v2, v2.(pc := if done then Ready else Serve(c), conn := v2.conn.(lock := None)));
  }

  lemma {:induction false} ServesAll(s: State, t: nat, c: nat, choice: Pc, v: Sight)
    requires t < |s.threads| && c < |s.conns| && Bounded(Seen(s, t, c, v)) && !choice.Ready?
    requires v.pc == Serve(c) && v.conn.lock == None && v.conn.work == Working
    ensures Alone(Seen(s, t, c, v), Turn(t, choice), if v.conn.msgs == [] then 4 else 4 * |v.conn.msgs|) ==
            Seen(s, t, c, v.(pc := Ready, conn := Conn(Idle, [], None)))
    decreases |v.conn.msgs|
  {
    hide Alone, Bounded, Seen;
    var ms := v.conn.msgs;
    AsksAlone(s, t, c, choice, if ms == [] then 4 else 4 * |ms|, v);
    if |ms| <= 1 {
      AloneStays(Seen(s, t, c, v.(pc := Ready, conn := Conn(Idle, [], None))), Turn(t, choice));
    } else {
      ServesAll(s, t, c, choice, v.(conn := v.conn.(msgs := ms[1..])));
    }
  }

  /** Left alone, a worker takes the first listed connection off the list and serves it until it has no messages and is
      idle again; of a connection that was shut down it takes one message at most and then leaves it. */
  lemma {:induction false} ServesAlone(s: State, t: nat)
    requires Bounded(s) && t < |s.threads| && s.threads[t] == Ready
    requires s.listLock == None && s.permits > 0 && s.toService != []
    requires s.conns[s.toService[0]].lock == None
    ensures var c := s.toService[0];
            var k, ms := s.conns[c], s.conns[c].msgs;
            var n := if k.work == Shutdown || ms == [] then 9 else 5 + 4 * |ms|;
            var k' := if k.work == Working then Conn(Idle, [], None) else k.(msgs := if ms == [] then [] else ms[1..]);
            k.work == Working || k.work == Shutdown ==>
              Alone(s, Turn(t, WorkWait), n) == Seen(s, t, c, Sight(Ready, k', None, s.toService[1..], s.permits - 1))
  {
    hide Alone, Seen;
    var c := s.toService[0];
    var k, ms := s.conns[c], s.conns[c].msgs;
    var n := if k.work == Shutdown || ms == [] then 9 else 5 + 4 * |ms|;
    var v := Sight(Serve(c), k, None, s.toService[1..], s.permits - 1);
    TakesAlone(s, t, n);
    if k.work == Working {
      ServesAll(s, t, c, WorkWait, v);
    } else if k.work == Shutdown {
      AsksAlone(s, t, c, WorkWait, 4, v);
      var left := v.(pc := Ready, conn := k.(msgs := if ms == [] then [] else ms[1..]));
      AloneStays(Seen(s, t, c, left), Turn(t, WorkWait));
    }
  }

  // ----- what becomes of the messages -----

  /** What the turn adds to the messages of `c`. */
  ghost function Adds(s: State, turn: Turn, c: nat): seq<Message> {
    if turn.t < |s.threads| && s.threads[turn.t].StoreAdd? && s.threads[turn.t].c == c then [s.threads[turn.t].m]
    else []
  }

  /** What the turn has a worker take from them. */
  ghost function Takes(s: State, turn: Turn, c: nat): seq<Message>
    requires c < |s.conns|
  {
    if turn.t < |s.threads| && s.threads[turn.t] == Serve(c) && s.conns[c].lock == None && s.conns[c].msgs != []
    then [s.conns[c].msgs[0]] else []
  }

  /** The messages stored for `c` and those taken by workers, over a run. */
  ghost function Stored(s: State, schedule: seq<Turn>, c: nat): seq<Message>
    requires Bounded(s)
    decreases |schedule|
  {
    if schedule == [] then []
    else
      AfterBounded(s, schedule[0]);
      Adds(s, schedule[0], c) + Stored(After(s, schedule[0]), schedule[1..], c)
  }

  ghost function Taken(s: State, schedule: seq<Turn>, c: nat): seq<Message>
    requires Bounded(s) && c < |s.conns|
    decreases |schedule|
  {
    if schedule == [] then []
    else
      AfterBounded(s, schedule[0]);
      AfterMessages(s, schedule[0], c);
      Takes(s, schedule[0], c) + Taken(After(s, schedule[0]), schedule[1..], c)
  }

  ghost predicate AtTop(s: State, turn: Turn, c: nat) {
    turn.t < |s.threads| && s.threads[turn.t].StoreAdd? && s.threads[turn.t].c == c && s.threads[turn.t].atTop
  }

  /** No message of the run is put back at the top. */
  ghost predicate NonePutBack(s: State, schedule: seq<Turn>, c: nat)
    requires Bounded(s)
    decreases |schedule|
  {
    schedule == [] || (
      AfterBounded(s, schedule[0]);
      !AtTop(s, schedule[0], c) && NonePutBack(After(s, schedule[0]), schedule[1..], c))
  }

  lemma {:induction false} ActMessages(v: Sight, t: nat, choice: Pc)
    requires Act(v, t, choice).Some?
    ensures var ms, ms' := v.conn.msgs, Act(v, t, choice).value.conn.msgs;
            match v.pc
            case StoreAdd(c, m, atTop) => ms' == if atTop then [m] + ms else ms + [m]
            case Serve(c) => v.conn.lock == None && ms == if ms == [] then ms' else [ms[0]] + ms'
            case _ => ms' == ms
  {
  }

  lemma {:induction false} AfterMessages(s: State, turn: Turn, c: nat)
    requires Bounded(s) && c < |s.conns|
    ensures |After(s, turn).conns| == |s.conns|
    ensures var ms, ms' := s.conns[c].msgs, After(s, turn).conns[c].msgs;
            if AtTop(s, turn, c) then ms' == Adds(s, turn, c) + ms && Takes(s, turn, c) == []
            else ms + Adds(s, turn, c) == Takes(s, turn, c) + ms'
  {
    hide Act, Bounded;
    if turn.t < |s.threads| {
      var pc := s.threads[turn.t];
      if pc.StoreAdd? || pc == Serve(c) { NeverWaits(s, turn); }
      if Next(s, turn.t, turn.choice).Some? {
        StepFrame(s, turn.t, turn.choice, After(s, turn));
        ActMessages(See(s, turn.t), turn.t, turn.choice);
      }
    }
  }

  /** Storing never waits once it has the mutex, and a worker takes a message as soon as it is free. */
  lemma {:induction false} NeverWaits(s: State, turn: Turn)
    requires Bounded(s) && turn.t < |s.threads|
    ensures s.threads[turn.t].StoreAdd? ==> Next(s, turn.t, turn.choice).Some?
    ensures s.threads[turn.t].Serve? ==>
              (Next(s, turn.t, turn.choice).Some? <==> s.conns[s.threads[turn.t].c].lock == None)
  {
  }

  lemma {:induction false} Bags(ms: multiset<Message>, add: multiset<Message>, take: multiset<Message>,
                                ms1: multiset<Message>, stored: multiset<Message>, taken: multiset<Message>,
                                end: multiset<Message>)
    requires ms + add == take + ms1 && ms1 + stored == taken + end
    ensures ms + (add + stored) == (take + taken) + end
  {
    assert ms + (add + stored) == (ms + add) + stored;
    assert (take + ms1) + stored == take + (ms1 + stored);
  }

  /** No message is lost or taken twice, in any run. */
  lemma {:induction false} Conserved(s: State, schedule: seq<Turn>, c: nat)
    requires Bounded(s) && c < |s.conns|
    ensures Bounded(Run(s, schedule)) && |Run(s, schedule).conns| == |s.conns|
    ensures multiset(s.conns[c].msgs) + multiset(Stored(s, schedule, c))
         == multiset(Taken(s, schedule, c)) + multiset(Run(s, schedule).conns[c].msgs)
    decreases |schedule|
  {
    hide After, Adds, Takes, AtTop, Bounded;
    if schedule != [] {
      var turn := schedule[0];
      var s1 := After(s, turn);
      AfterBounded(s, turn);
      AfterMessages(s, turn, c);
      Conserved(s1, schedule[1..], c);
      var ms, add, take, ms1 := s.conns[c].msgs, Adds(s, turn, c), Takes(s, turn, c), s1.conns[c].msgs;
      assert multiset(ms) + multiset(add) == multiset(take) + multiset(ms1) by {
        assert AtTop(s, turn, c) ==> multiset(ms1) == multiset(add + ms);
        assert !AtTop(s, turn, c) ==> multiset(ms + add) == multiset(take + ms1);
      }
      var stored, taken := Stored(s1, schedule[1..], c), Taken(s1, schedule[1..], c);
      var end := Run(s1, schedule[1..]).conns[c].msgs;
      Bags(multiset(ms), multiset(add), multiset(take), multiset(ms1), multiset(stored), multiset(taken),
           multiset(end));
      assert multiset(add + stored) == multiset(add) + multiset(stored);
      assert multiset(take + taken) == multiset(take) + multiset(taken);
    }
  }

  /** Messages are taken in the order in which they were stored, as long as none is put back. */
  lemma {:induction false} InOrder(s: State, schedule: seq<Turn>, c: nat)
    requires Bounded(s) && c < |s.conns| && NonePutBack(s, schedule, c)
    ensures Bounded(Run(s, schedule)) && |Run(s, schedule).conns| == |s.conns|
    ensures s.conns[c].msgs + Stored(s, schedule, c) == Taken(s, schedule, c) + Run(s, schedule).conns[c].msgs
    decreases |schedule|
  {
    hide After, Adds, Takes, AtTop, Bounded;
    if schedule != [] {
      var turn := schedule[0];
      var s1 := After(s, turn);
      AfterBounded(s, turn);
      AfterMessages(s, turn, c);
      InOrder(s1, schedule[1..], c);
      var ms, add, take, ms1 := s.conns[c].msgs, Adds(s, turn, c), Takes(s, turn, c), s1.conns[c].msgs;
      var stored, taken := Stored(s1, schedule[1..], c), Taken(s1, schedule[1..], c);
      var end := Run(s1, schedule[1..]).conns[c].msgs;
      assert (ms + add) + stored == ms + (add + stored);
      assert take + (ms1 + stored) == (take + ms1) + stored;
      assert take + (taken + end) == (take + taken) + end;
    }
  }
}
