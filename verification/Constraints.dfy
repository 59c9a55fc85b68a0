/** The constraint set of one query leaf and the twelve routines that merge two of them.

    A leaf bounds the key of one tag: at most one constant for each of `<`, `<=`, `>`, `>=` and `==`,
    and a list of constants for `<>`.  Under AND a key must satisfy every constraint, under OR any
    one of them.  The routines are right for constants none of which begins another. */
module Constraints {
  import opened Wrappers
  import opened Bytes
  import opened Digits
  import opened Constants

  datatype Op = And | Or

  datatype Leaf = Leaf(
    lt: Option<Const>, le: Option<Const>, gt: Option<Const>, ge: Option<Const>,
    eq: Option<Const>, ne: seq<Const>)

  /** What one merge routine answers: `Stop` when the result is settled for every key (nothing can
      match under AND, everything does under OR), otherwise the two leaves as it leaves them. */
  datatype Step = Stop | Go(a: Leaf, b: Leaf)

  // ----- meaning -----

  predicate Below(l: Leaf, at: Place) {
    (l.lt.Some? ==> at(l.lt.value) < 0) && (l.le.Some? ==> at(l.le.value) <= 0)
  }

  predicate Above(l: Leaf, at: Place) {
    (l.gt.Some? ==> at(l.gt.value) > 0) && (l.ge.Some? ==> at(l.ge.value) >= 0)
  }

  /** Whether what is at this place, a key for one, satisfies the leaf. */
  predicate Admits(op: Op, l: Leaf, at: Place) {
    match op
    case And =>
      && Below(l, at) && Above(l, at) && (l.eq.Some? ==> at(l.eq.value) == 0)
      && Avoids(l.ne, at)
    case Or =>
      || (l.lt.Some? && at(l.lt.value) < 0) || (l.le.Some? && at(l.le.value) <= 0)
      || (l.gt.Some? && at(l.gt.value) > 0) || (l.ge.Some? && at(l.ge.value) >= 0)
      || (l.eq.Some? && at(l.eq.value) == 0)
      || AvoidsOne(l.ne, at)
  }

  predicate Avoids(cs: seq<Const>, at: Place) {
    forall c :: c in cs ==> at(c) != 0
  }

  predicate AvoidsOne(cs: seq<Const>, at: Place) {
    exists c :: c in cs && at(c) != 0
  }

  predicate Joined(op: Op, p: bool, q: bool) {
    if op == And then p && q else p || q
  }

  predicate Empty(l: Leaf) {
    l.lt.None? && l.le.None? && l.gt.None? && l.ge.None? && l.eq.None? && l.ne == []
  }

  // ----- the constants of a leaf and what they are there for -----

  datatype Role = Lt | Le | Gt | Ge | Eq | Ne

  datatype Term = Term(role: Role, con: Const)

  ghost predicate Has(l: Leaf, t: Term) {
    match t.role
    case Lt => l.lt == Some(t.con)
    case Le => l.le == Some(t.con)
    case Gt => l.gt == Some(t.con)
    case Ge => l.ge == Some(t.con)
    case Eq => l.eq == Some(t.con)
    case Ne => t.con in l.ne
  }

  ghost predicate Lists(ts: iset<Term>, r: Role, c: Option<Const>) {
    c.Some? ==> Term(r, c.value) in ts
  }

  /** Every constraint of the leaf is one of these. */
  ghost predicate Drawn(l: Leaf, ts: iset<Term>) {
    && Lists(ts, Lt, l.lt) && Lists(ts, Le, l.le) && Lists(ts, Gt, l.gt) && Lists(ts, Ge, l.ge) && Lists(ts, Eq, l.eq)
    && forall c :: c in l.ne ==> Lists(ts, Ne, Some(c))
  }

  lemma {:induction false} NoneListed(ts: iset<Term>)
    ensures forall r :: Lists(ts, r, None)
  {
  }

  ghost predicate From(l: Leaf, cs: iset<Const>) {
    && (l.lt.Some? ==> l.lt.value in cs) && (l.le.Some? ==> l.le.value in cs)
    && (l.gt.Some? ==> l.gt.value in cs) && (l.ge.Some? ==> l.ge.value in cs)
    && (l.eq.Some? ==> l.eq.value in cs)
    && forall c :: c in l.ne ==> c in cs
  }

  /** Where a constant is there for two things it may be there for any. */
  ghost predicate Closed(ts: iset<Term>) {
    forall t, u {:trigger t in ts, u in ts} :: t in ts && u in ts && t.con == u.con && t.role != u.role ==>
      forall r :: Term(r, t.con) in ts
  }

  /** Constants of which one begins the other are an equality and an exclusion. */
  ghost predicate Clear(ts: iset<Term>) {
    forall t, u :: t in ts && u in ts && Comparable(t.con, u.con) ==>
      t.role in {Eq, Ne} && u.role in {Eq, Ne} && t.role != u.role
  }

  lemma {:induction false} Both(ts: iset<Term>, r: Role, q: Role, c: Const)
    requires Closed(ts) && r != q && Lists(ts, r, Some(c)) && Lists(ts, q, Some(c))
    ensures forall any :: Lists(ts, any, Some(c))
  {
  }

  /** These constants, for anything. */
  ghost function Any(cs: iset<Const>): iset<Term> {
    iset t: Term | t.con in cs
  }

  lemma {:induction false} AnyClosed(cs: iset<Const>)
    ensures Closed(Any(cs))
  {
  }

  // ----- the canonical form of a leaf -----

  predicate OneSided(l: Leaf) {
    !(l.lt.Some? && l.le.Some?) && !(l.gt.Some? && l.ge.Some?)
  }

  function Upper(l: Leaf): Option<Const> {
    if l.lt.Some? then l.lt else l.le
  }

  function Lower(l: Leaf): Option<Const> {
    if l.gt.Some? then l.gt else l.ge
  }

  /** Under AND an equality stands alone, and a lower bound lies strictly below an upper one. */
  predicate NormalAnd(l: Leaf) {
    && OneSided(l)
    && (l.eq.Some? ==> l.lt.None? && l.le.None? && l.gt.None? && l.ge.None? && l.ne == [])
    && (Lower(l).Some? && Upper(l).Some? ==> Less(Lower(l).value, Upper(l).value))
  }

  /** Neither ray of the leaf takes the constant in. */
  predicate Outside(l: Leaf, c: Const) {
    && (l.lt.Some? ==> !Less(c, l.lt.value)) && (l.le.Some? ==> !LessEq(c, l.le.value))
    && (l.gt.Some? ==> !Less(l.gt.value, c)) && (l.ge.Some? ==> !LessEq(l.ge.value, c))
  }

  /** Under OR the two rays leave a gap, an equality adds something to them, at most one constant is excluded,
      and whatever stands beside an exclusion adds nothing to it. */
  predicate NormalOr(l: Leaf) {
    && OneSided(l) && |l.ne| <= 1
    && (Lower(l).Some? && Upper(l).Some? && l.ne == [] ==> Less(Upper(l).value, Lower(l).value))
    && (l.eq.Some? ==> l.ne == [] && Outside(l, l.eq.value))
    && (l.ne != [] ==> Outside(l, l.ne[0]))
  }

  predicate Normal(op: Op, l: Leaf) {
    if op == And then NormalAnd(l) else NormalOr(l)
  }

  /** A leaf as it is created, with one constraint. */
  function One(r: Role, c: Const): Leaf {
    match r
    case Lt => Leaf(Some(c), None, None, None, None, [])
    case Le => Leaf(None, Some(c), None, None, None, [])
    case Gt => Leaf(None, None, Some(c), None, None, [])
    case Ge => Leaf(None, None, None, Some(c), None, [])
    case Eq => Leaf(None, None, None, None, Some(c), [])
    case Ne => Leaf(None, None, None, None, None, [c])
  }

  /** It is canonical under both operators. */
  lemma {:induction false} OneConstraintNormal(op: Op, r: Role, c: Const)
    ensures Normal(op, One(r, c))
  {
  }

  // ----- AND -----

  function Without(ne: seq<Const>, drop: Const -> bool): (r: seq<Const>)
    ensures forall x :: x in r <==> x in ne && !drop(x)
  {
    if ne == [] then []
    else (if drop(ne[0]) then [] else [ne[0]]) + Without(ne[1..], drop)
  }

  function Over(c: Const): Const -> bool { (n: Const) => Less(c, n) }

  function FromOn(c: Const): Const -> bool { (n: Const) => LessEq(c, n) }

  function Under(c: Const): Const -> bool { (n: Const) => Less(n, c) }

  function UpTo(c: Const): Const -> bool { (n: Const) => LessEq(n, c) }

  function TightenLe(a: Leaf, c: Const): Leaf {
    if a.lt.Some? then (if Less(c, a.lt.value) then a.(le := Some(c), lt := None) else a)
    else if a.le.Some? then (if Less(c, a.le.value) then a.(le := Some(c)) else a)
    else a.(le := Some(c))
  }

  function TightenGe(a: Leaf, c: Const): Leaf {
    if a.gt.Some? then (if Less(a.gt.value, c) then a.(ge := Some(c), gt := None) else a)
    else if a.ge.Some? then (if Less(a.ge.value, c) then a.(ge := Some(c)) else a)
    else a.(ge := Some(c))
  }

  function TightenLt(a: Leaf, c: Const): Leaf {
    if a.lt.Some? then (if LessEq(c, a.lt.value) then a.(lt := Some(c)) else a)
    else if a.le.Some? then (if LessEq(c, a.le.value) then a.(lt := Some(c), le := None) else a)
    else a.(lt := Some(c))
  }

  function TightenGt(a: Leaf, c: Const): Leaf {
    if a.gt.Some? then (if Less(a.gt.value, c) then a.(gt := Some(c)) else a)
    else if a.ge.Some? then (if LessEq(a.ge.value, c) then a.(gt := Some(c), ge := None) else a)
    else a.(gt := Some(c))
  }

  function AndLe(a: Leaf, b: Leaf): Step
    requires b.le.Some?
  {
    var c := b.le.value;
    if a.eq.Some? then
      if Less(c, a.eq.value) then Stop else Go(a, b.(le := None))
    else if a.gt.Some? && LessEq(c, a.gt.value) then Stop
    else if a.ge.Some? && Less(c, a.ge.value) then Stop
    else if a.ge.Some? && c == a.ge.value then
      if b.eq.Some? && b.eq.value != c then Stop else Go(a, b.(eq := Some(c), le := None))
    else
      var a1 := a.(ne := Without(a.ne, Over(c)));
      if c in a.ne then Go(a1, b.(lt := Some(c), le := None))
      else Go(TightenLe(a1, c), b.(le := None))
  }

  function AndGe(a: Leaf, b: Leaf): Step
    requires b.ge.Some?
  {
    var c := b.ge.value;
    if a.eq.Some? then
      if Less(a.eq.value, c) then Stop else Go(a, b.(ge := None))
    else if a.lt.Some? && LessEq(a.lt.value, c) then Stop
    else if a.lt.None? && a.le.Some? && Less(a.le.value, c) then Stop
    else if a.lt.None? && a.le.Some? && a.le.value == c then
      if b.eq.Some? && b.eq.value != c then Stop else Go(a, b.(eq := Some(c), ge := None))
    else
      var a1 := a.(ne := Without(a.ne, Under(c)));
      if c in a.ne then Go(a1, b.(gt := Some(c), ge := None))
      else Go(TightenGe(a1, c), b.(ge := None))
  }

  function AndLt(a: Leaf, b: Leaf): Step
    requires b.lt.Some?
  {
    var c := b.lt.value;
    if a.eq.Some? then
      if LessEq(c, a.eq.value) then Stop else Go(a, b.(lt := None))
    else
      var a1 := a.(ne := Without(a.ne, FromOn(c)));
      if a.gt.Some? && LessEq(c, a.gt.value) then Stop
      else if a.gt.None? && a.ge.Some? && LessEq(c, a.ge.value) then Stop
      else Go(TightenLt(a1, c), b.(lt := None))
  }

  function AndGt(a: Leaf, b: Leaf): Step
    requires b.gt.Some?
  {
    var c := b.gt.value;
    if a.eq.Some? then
      if LessEq(a.eq.value, c) then Stop else Go(a, b.(gt := None))
    else
      var a1 := a.(ne := Without(a.ne, UpTo(c)));
      if a.lt.Some? && LessEq(a.lt.value, c) then Stop
      else if a.lt.None? && a.le.Some? && LessEq(a.le.value, c) then Stop
      else Go(TightenGt(a1, c), b.(gt := None))
  }

  /** One exclusion taken into the first leaf; `None` when it contradicts the leaf's equality. */
  function AndNeOne(a: Leaf, c: Const): Option<Leaf> {
    if a.eq.Some? then (if c == a.eq.value then None else Some(a))
    else if a.gt.Some? && LessEq(c, a.gt.value) then Some(a)
    else if a.gt.None? && a.ge.Some? && c == a.ge.value then Some(a.(gt := Some(c), ge := None))
    else if a.gt.None? && a.ge.Some? && LessEq(c, a.ge.value) then Some(a)
    else if a.lt.Some? && LessEq(a.lt.value, c) then Some(a)
    else if a.lt.None? && a.le.Some? && c == a.le.value then Some(a.(lt := Some(c), le := None))
    else if a.lt.None? && a.le.Some? && LessEq(a.le.value, c) then Some(a)
    else if c in a.ne then Some(a)
    else Some(a.(ne := a.ne + [c]))
  }

  /** The loop over the exclusions of the second leaf, one at a time. */
  function AndNe(a: Leaf, b: Leaf): Step
    decreases |b.ne|
  {
    if b.ne == [] then Go(a, b)
    else
      match AndNeOne(a, b.ne[0])
      case None => Stop
      case Some(a1) => AndNe(a1, b.(ne := b.ne[1..]))
  }

  function AndEq(a: Leaf, b: Leaf): Step
    requires b.eq.Some?
  {
    var c := b.eq.value;
    if a.eq.Some? then
      if c == a.eq.value then Go(a, b.(eq := None)) else Stop
    else if c in a.ne then Stop
    else if a.le.Some? && Less(a.le.value, c) then Stop
    else if a.le.None? && a.lt.Some? && LessEq(a.lt.value, c) then Stop
    else if a.ge.Some? && Less(c, a.ge.value) then Stop
    else if a.ge.None? && a.gt.Some? && LessEq(c, a.gt.value) then Stop
    else
      // only the bound that was looked at is cleared, `le` before `lt` and `ge` before `gt`
      var a1 := if a.le.Some? then a.(le := None) else a.(lt := None);
      var a2 := if a1.ge.Some? then a1.(ge := None) else a1.(gt := None);
      Go(a2.(ne := [], eq := Some(c)), b.(eq := None))
  }

  /** The AND order of the six routines: le, ge, lt, gt, ne, eq. */
  function AndPass(a: Leaf, b: Leaf): Step {
    var s := AndBounds(a, b);
    if s.Go? then AndPoints(s.a, s.b) else s
  }

  function AndBounds(a: Leaf, b: Leaf): Step {
    var s1 := if b.le.Some? then AndLe(a, b) else Go(a, b);
    var s2 := if s1.Go? && s1.b.ge.Some? then AndGe(s1.a, s1.b) else s1;
    var s3 := if s2.Go? && s2.b.lt.Some? then AndLt(s2.a, s2.b) else s2;
    if s3.Go? && s3.b.gt.Some? then AndGt(s3.a, s3.b) else s3
  }

  function AndPoints(a: Leaf, b: Leaf): Step {
    var s1 := if b.ne != [] then AndNe(a, b) else Go(a, b);
    if s1.Go? && s1.b.eq.Some? then AndEq(s1.a, s1.b) else s1
  }

  // ----- OR -----

  function OrLtRay(a1: Leaf, b: Leaf): Step
    requires b.lt.Some?
  {
    var c := b.lt.value;
    if a1.ne != [] then
      if Less(a1.ne[0], c) then Stop else Go(a1, b.(lt := None))
    else if a1.gt.Some? && Less(a1.gt.value, c) then Stop
    else if a1.gt.Some? && a1.gt.value == c then
      Go(a1.(ne := [c], gt := None), b.(lt := None))
    else if a1.gt.None? && a1.ge.Some? && LessEq(a1.ge.value, c) then Stop
    else if a1.lt.Some? then
      Go(if Less(a1.lt.value, c) then a1.(lt := Some(c)) else a1, b.(lt := None))
    else if a1.le.Some? then
      Go(if LessEq(c, a1.le.value) then a1 else a1.(lt := Some(c), le := None), b.(lt := None))
    else Go(a1.(lt := Some(c)), b.(lt := None))
  }

  function OrLt(a: Leaf, b: Leaf): Step
    requires b.lt.Some?
  {
    var c := b.lt.value;
    if a.eq.Some? && a.eq.value == c then Go(a.(eq := None), b.(le := Some(c), lt := None))
    else
      var a1 := if a.eq.Some? && Less(a.eq.value, c) then a.(eq := None) else a;
      OrLtRay(a1, b)
  }

  function OrGtRay(a1: Leaf, b: Leaf): Step
    requires b.gt.Some?
  {
    var c := b.gt.value;
    if a1.ne != [] then
      if Less(c, a1.ne[0]) then Stop else Go(a1, b.(gt := None))
    else if a1.lt.Some? && Less(c, a1.lt.value) then Stop
    else if a1.lt.Some? && a1.lt.value == c then
      Go(a1.(ne := [c], lt := None), b.(gt := None))
    else if a1.lt.None? && a1.le.Some? && LessEq(c, a1.le.value) then Stop
    else if a1.gt.Some? then
      Go(if Less(a1.gt.value, c) then a1 else a1.(gt := Some(c)), b.(gt := None))
    else if a1.ge.Some? then
      Go(if LessEq(a1.ge.value, c) then a1 else a1.(gt := Some(c), ge := None), b.(gt := None))
    else Go(a1.(gt := Some(c)), b.(gt := None))
  }

  function OrGt(a: Leaf, b: Leaf): Step
    requires b.gt.Some?
  {
    var c := b.gt.value;
    if a.eq.Some? && a.eq.value == c then Go(a.(eq := None), b.(ge := Some(c), gt := None))
    else
      var a1 := if a.eq.Some? && Less(c, a.eq.value) then a.(eq := None) else a;
      OrGtRay(a1, b)
  }

  function OrLe(a: Leaf, b: Leaf): Step
    requires b.le.Some?
  {
    var c := b.le.value;
    var a1 := if a.eq.Some? && LessEq(a.eq.value, c) then a.(eq := None) else a;
    if a1.gt.Some? && LessEq(a1.gt.value, c) then Stop
    else if a1.gt.None? && a1.ge.Some? && LessEq(a1.ge.value, c) then Stop
    else if a1.ne != [] then
      if LessEq(a1.ne[0], c) then Stop else Go(a1, b.(le := None))
    else if a1.lt.Some? then
      Go(if LessEq(a1.lt.value, c) then a1.(lt := None, le := Some(c)) else a1, b.(le := None))
    else if a1.le.Some? then
      Go(if LessEq(a1.le.value, c) then a1.(le := Some(c)) else a1, b.(le := None))
    else Go(a1.(le := Some(c)), b.(le := None))
  }

  function OrGe(a: Leaf, b: Leaf): Step
    requires b.ge.Some?
  {
    var c := b.ge.value;
    var a1 := if a.eq.Some? && LessEq(c, a.eq.value) then a.(eq := None) else a;
    if a1.lt.Some? && LessEq(c, a1.lt.value) then Stop
    else if a1.lt.None? && a1.le.Some? && LessEq(c, a1.le.value) then Stop
    else if a1.ne != [] then
      if LessEq(c, a1.ne[0]) then Stop else Go(a1, b.(ge := None))
    else if a1.gt.Some? then
      Go(if LessEq(c, a1.gt.value) then a1.(gt := None, ge := Some(c)) else a1, b.(ge := None))
    else if a1.ge.Some? then
      Go(if LessEq(c, a1.ge.value) then a1.(ge := Some(c)) else a1, b.(ge := None))
    else Go(a1.(ge := Some(c)), b.(ge := None))
  }

  function OrNe(a: Leaf, b: Leaf): Step
    requires b.ne != []
  {
    var c := b.ne[0];
    if a.eq.Some? && a.eq.value == c then Stop
    else
      var a1 := a.(eq := None);
      if a1.ne != [] then
        if a1.ne[0] == c then Go(a1, b.(ne := b.ne[1..])) else Stop
      else if a1.lt.Some? && Less(c, a1.lt.value) then Stop
      else if a1.lt.None? && a1.le.Some? && LessEq(c, a1.le.value) then Stop
      else
        var a2 := if a1.lt.Some? then a1.(lt := None) else a1.(le := None);
        if a2.gt.Some? && Less(a2.gt.value, c) then Stop
        else if a2.gt.None? && a2.ge.Some? && LessEq(a2.ge.value, c) then Stop
        else
          var a3 := if a2.gt.Some? then a2.(gt := None) else a2.(ge := None);
          Go(a3.(ne := [c]), b.(ne := b.ne[1..]))
  }

  function OrEq(a: Leaf, b: Leaf): Step
    requires b.eq.Some?
  {
    var c := b.eq.value;
    if a.eq.Some? && a.eq.value == c then Go(a, b.(eq := None))
    else if a.ne != [] then
      if a.ne[0] == c then Stop else Go(a, b.(eq := None))
    else if a.lt.Some? && a.lt.value == c then Go(a.(le := Some(c), lt := None), b.(eq := None))
    else if a.lt.Some? && Less(c, a.lt.value) then Go(a, b.(eq := None))
    else if a.lt.None? && a.le.Some? && LessEq(c, a.le.value) then Go(a, b.(eq := None))
    else if a.gt.Some? && a.gt.value == c then Go(a.(ge := Some(c), gt := None), b.(eq := None))
    else if a.gt.Some? && Less(a.gt.value, c) then Go(a, b.(eq := None))
    else if a.gt.None? && a.ge.Some? && LessEq(a.ge.value, c) then Go(a, b.(eq := None))
    else if a.eq.None? then Go(a.(eq := Some(c)), b.(eq := None))
    else Go(a, b)
  }

  /** The OR order of the six routines: lt, gt, le, ge, ne, eq. */
  function OrPass(a: Leaf, b: Leaf): Step {
    var s := OrOpen(a, b);
    if s.Go? then
      var t := OrClosed(s.a, s.b);
      if t.Go? then OrPoints(t.a, t.b) else t
    else s
  }

  function OrOpen(a: Leaf, b: Leaf): Step {
    var s1 := if b.lt.Some? then OrLt(a, b) else Go(a, b);
    if s1.Go? && s1.b.gt.Some? then OrGt(s1.a, s1.b) else s1
  }

  function OrClosed(a: Leaf, b: Leaf): Step {
    var s1 := if b.le.Some? then OrLe(a, b) else Go(a, b);
    if s1.Go? && s1.b.ge.Some? then OrGe(s1.a, s1.b) else s1
  }

  function OrPoints(a: Leaf, b: Leaf): Step {
    var s1 := if b.ne != [] then OrNe(a, b) else Go(a, b);
    if s1.Go? && s1.b.eq.Some? then OrEq(s1.a, s1.b) else s1
  }

  // ----- each routine keeps the meaning of the pair -----

  /** The pair `a`, `b` joined by `op` means the same at a place after the step; a step that stops has found
      that nothing matches (AND) or that everything does (OR). */
  predicate Faithful(op: Op, a: Leaf, b: Leaf, s: Step, at: Place) {
    Joined(op, Admits(op, a, at), Admits(op, b, at))
    == if s.Stop? then op == Or else Joined(op, Admits(op, s.a, at), Admits(op, s.b, at))
  }

  /** The pair has its constants from `cs`, among which it is at this place. */
  ghost predicate Seen(a: Leaf, b: Leaf, cs: iset<Const>, at: Place, p: real) {
    Ordered(cs) && Placed(cs, at, p) && From(a, cs) && From(b, cs)
  }

  /** Exclusions that a bound makes idle can go. */
  lemma {:induction false} WithoutIdle(ne: seq<Const>, c: Const, cs: iset<Const>, at: Place, p: real)
    requires Ordered(cs) && Placed(cs, at, p) && c in cs && forall n :: n in ne ==> n in cs
    ensures at(c) <= 0 ==> Avoids(Without(ne, Over(c)), at) == Avoids(ne, at)
    ensures at(c) < 0 ==> Avoids(Without(ne, FromOn(c)), at) == Avoids(ne, at)
    ensures at(c) >= 0 ==> Avoids(Without(ne, Under(c)), at) == Avoids(ne, at)
    ensures at(c) > 0 ==> Avoids(Without(ne, UpTo(c)), at) == Avoids(ne, at)
    ensures c in ne ==> !Avoids(ne, at) || at(c) != 0
  {
    hide Less, LessEq, Worth;
  }

  /** Taking a bound in is taking its keys away. */
  lemma {:induction false} TightenMeans(a: Leaf, c: Const, cs: iset<Const>, at: Place, p: real)
    requires Ordered(cs) && Placed(cs, at, p) && From(a, cs) && c in cs && OneSided(a)
    ensures Admits(And, TightenLe(a, c), at) <==> Admits(And, a, at) && at(c) <= 0
    ensures Admits(And, TightenGe(a, c), at) <==> Admits(And, a, at) && at(c) >= 0
    ensures Admits(And, TightenLt(a, c), at) <==> Admits(And, a, at) && at(c) < 0
    ensures Admits(And, TightenGt(a, c), at) <==> Admits(And, a, at) && at(c) > 0
  {
    hide Less, LessEq, Worth, Avoids;
  }

  lemma {:induction false} AndLeFaithful(a: Leaf, b: Leaf, cs: iset<Const>, at: Place, p: real)
    requires Seen(a, b, cs, at, p) && NormalAnd(a) && b.le.Some? && b.lt.None?
    ensures Faithful(And, a, b, AndLe(a, b), at)
  {
    hide Less, LessEq, Worth, Avoids, Without, Over, TightenLe;
    var c := b.le.value;
    WithoutIdle(a.ne, c, cs, at, p);
    TightenMeans(a.(ne := Without(a.ne, Over(c))), c, cs, at, p);
    if b.eq.Some? && b.eq != b.le { Distinct(cs, b.eq.value, b.le.value); }
  }

  lemma {:induction false} AndLeNormal(a: Leaf, b: Leaf, cs: iset<Const>)
    requires Ordered(cs) && From(a, cs) && From(b, cs) && NormalAnd(a) && b.le.Some? && b.lt.None?
    ensures var s := AndLe(a, b); s.Go? ==> 
              NormalAnd(s.a) && s.b.le.None? && s.b == b.(le := None, lt := s.b.lt, eq := s.b.eq)
  {
    hide Less, LessEq, Worth;
  }

  lemma {:induction false} AndLeDrawn(a: Leaf, b: Leaf, ts: iset<Term>)
    requires Closed(ts) && Drawn(a, ts) && Drawn(b, ts) && b.le.Some?
    ensures var s := AndLe(a, b); s.Go? ==> Drawn(s.a, ts) && Drawn(s.b, ts)
  {
    hide Less, LessEq, Closed, Lists;
    NoneListed(ts);
    var c := b.le.value;
    if a.ge == Some(c) { Both(ts, Le, Ge, c); }
    if c in a.ne { Both(ts, Le, Ne, c); }
  }

  lemma {:induction false} AndGeFaithful(a: Leaf, b: Leaf, cs: iset<Const>, at: Place, p: real)
    requires Seen(a, b, cs, at, p) && NormalAnd(a) && b.ge.Some? && b.gt.None?
    ensures Faithful(And, a, b, AndGe(a, b), at)
  {
    hide Less, LessEq, Worth, Avoids, Without, Under, TightenGe;
    var c := b.ge.value;
    WithoutIdle(a.ne, c, cs, at, p);
    TightenMeans(a.(ne := Without(a.ne, Under(c))), c, cs, at, p);
    if b.eq.Some? && b.eq != b.ge { Distinct(cs, b.eq.value, b.ge.value); }
  }

  lemma {:induction false} AndGeNormal(a: Leaf, b: Leaf, cs: iset<Const>)
    requires Ordered(cs) && From(a, cs) && From(b, cs) && NormalAnd(a) && b.ge.Some? && b.gt.None?
    ensures var s := AndGe(a, b); s.Go? ==> 
              NormalAnd(s.a) && s.b.ge.None? && s.b == b.(ge := None, gt := s.b.gt, eq := s.b.eq)
  {
    hide Less, LessEq, Worth;
  }

  lemma {:induction false} AndGeDrawn(a: Leaf, b: Leaf, ts: iset<Term>)
    requires Closed(ts) && Drawn(a, ts) && Drawn(b, ts) && b.ge.Some?
    ensures var s := AndGe(a, b); s.Go? ==> Drawn(s.a, ts) && Drawn(s.b, ts)
  {
    hide Less, LessEq, Closed, Lists;
    NoneListed(ts);
    var c := b.ge.value;
    if a.le == Some(c) { Both(ts, Ge, Le, c); }
    if c in a.ne { Both(ts, Ge, Ne, c); }
  }

  lemma {:induction false} AndLtFaithful(a: Leaf, b: Leaf, cs: iset<Const>, at: Place, p: real)
    requires Seen(a, b, cs, at, p) && NormalAnd(a) && b.lt.Some?
    ensures Faithful(And, a, b, AndLt(a, b), at)
  {
    hide Less, LessEq, Worth, Avoids, Without, FromOn, TightenLt;
    var c := b.lt.value;
    WithoutIdle(a.ne, c, cs, at, p);
    TightenMeans(a.(ne := Without(a.ne, FromOn(c))), c, cs, at, p);
  }

  lemma {:induction false} AndLtNormal(a: Leaf, b: Leaf, cs: iset<Const>)
    requires Ordered(cs) && From(a, cs) && From(b, cs) && NormalAnd(a) && b.lt.Some?
    ensures var s := AndLt(a, b); s.Go? ==> NormalAnd(s.a) && s.b == b.(lt := None)
  {
    hide Less, LessEq, Worth;
  }

  lemma {:induction false} AndLtDrawn(a: Leaf, b: Leaf, ts: iset<Term>)
    requires Closed(ts) && Drawn(a, ts) && Drawn(b, ts) && b.lt.Some?
    ensures var s := AndLt(a, b); s.Go? ==> Drawn(s.a, ts) && Drawn(s.b, ts)
  {
    hide Less, LessEq, Closed, Lists;
    NoneListed(ts);
  }

  lemma {:induction false} AndGtFaithful(a: Leaf, b: Leaf, cs: iset<Const>, at: Place, p: real)
    requires Seen(a, b, cs, at, p) && NormalAnd(a) && b.gt.Some?
    ensures Faithful(And, a, b, AndGt(a, b), at)
  {
    hide Less, LessEq, Worth, Avoids, Without, UpTo, TightenGt;
    var c := b.gt.value;
    WithoutIdle(a.ne, c, cs, at, p);
    TightenMeans(a.(ne := Without(a.ne, UpTo(c))), c, cs, at, p);
  }

  lemma {:induction false} AndGtNormal(a: Leaf, b: Leaf, cs: iset<Const>)
    requires Ordered(cs) && From(a, cs) && From(b, cs) && NormalAnd(a) && b.gt.Some?
    ensures var s := AndGt(a, b); s.Go? ==> NormalAnd(s.a) && s.b == b.(gt := None)
  {
    hide Less, LessEq, Worth;
  }

  lemma {:induction false} AndGtDrawn(a: Leaf, b: Leaf, ts: iset<Term>)
    requires Closed(ts) && Drawn(a, ts) && Drawn(b, ts) && b.gt.Some?
    ensures var s := AndGt(a, b); s.Go? ==> Drawn(s.a, ts) && Drawn(s.b, ts)
  {
    hide Less, LessEq, Closed, Lists;
    NoneListed(ts);
  }

  lemma {:induction false} AndNeOneFaithful(a: Leaf, c: Const, cs: iset<Const>, at: Place, p: real)
    requires Ordered(cs) && Placed(cs, at, p) && From(a, cs) && c in cs && NormalAnd(a)
    ensures AndNeOne(a, c).None? ==> !(Admits(And, a, at) && at(c) != 0)
    ensures var r := AndNeOne(a, c); r.Some? ==>
              && NormalAnd(r.value) && From(r.value, cs)
              && (Admits(And, r.value, at) <==> Admits(And, a, at) && at(c) != 0)
  {
    hide Less, LessEq, Worth, Avoids;
    if a.eq.Some? && a.eq.value != c { Distinct(cs, a.eq.value, c); }
    NeOneMore(a.ne, c, at);
  }

  lemma {:induction false} NeOneMore(ne: seq<Const>, c: Const, at: Place)
    ensures Avoids(ne + [c], at) <==> Avoids(ne, at) && at(c) != 0
    ensures c in ne && Avoids(ne, at) ==> at(c) != 0
  {
    assert c in ne + [c];
    assert forall d :: d in ne ==> d in ne + [c];
  }

  lemma {:induction false} AndNeFaithful(a: Leaf, b: Leaf, cs: iset<Const>, at: Place, p: real)
    requires Seen(a, b, cs, at, p) && NormalAnd(a)
    ensures Faithful(And, a, b, AndNe(a, b), at)
    ensures AndNe(a, b).Go? ==> NormalAnd(AndNe(a, b).a) && AndNe(a, b).b == b.(ne := [])
    decreases |b.ne|
  {
    hide Less, LessEq, Worth, Avoids, AndNeOne;
    if b.ne != [] {
      var c, b1 := b.ne[0], b.(ne := b.ne[1..]);
      NeOneLess(b.ne, at);
      assert forall d :: d in b1.ne ==> d in b.ne;
      AndNeOneFaithful(a, c, cs, at, p);
      if AndNeOne(a, c).Some? {
        AndNeFaithful(AndNeOne(a, c).value, b1, cs, at, p);
      }
    }
  }

  lemma {:induction false} NeOneLess(ne: seq<Const>, at: Place)
    requires ne != []
    ensures Avoids(ne, at) <==> at(ne[0]) != 0 && Avoids(ne[1..], at)
  {
    assert ne == [ne[0]] + ne[1..];
  }

  lemma {:induction false} AndNeDrawn(a: Leaf, b: Leaf, ts: iset<Term>)
    requires Closed(ts) && Drawn(a, ts) && Drawn(b, ts)
    ensures AndNe(a, b).Go? ==> Drawn(AndNe(a, b).a, ts) && Drawn(AndNe(a, b).b, ts)
    decreases |b.ne|
  {
    hide Less, LessEq, Closed, Lists;
    NoneListed(ts);
    if b.ne != [] {
      var c, b1 := b.ne[0], b.(ne := b.ne[1..]);
      assert c in b.ne && forall d :: d in b1.ne ==> d in b.ne;
      if a.ge == Some(c) { Both(ts, Ge, Ne, c); }
      if a.le == Some(c) { Both(ts, Le, Ne, c); }
      if AndNeOne(a, c).Some? {
        AndNeDrawn(AndNeOne(a, c).value, b1, ts);
      }
    }
  }

  lemma {:induction false} AndEqFaithful(a: Leaf, b: Leaf, cs: iset<Const>, at: Place, p: real)
    requires Seen(a, b, cs, at, p) && NormalAnd(a) && b.eq.Some?
    ensures Faithful(And, a, b, AndEq(a, b), at)
    ensures AndEq(a, b).Go? ==> NormalAnd(AndEq(a, b).a) && AndEq(a, b).b == b.(eq := None)
  {
    hide Less, LessEq, Worth, Avoids;
    var c := b.eq.value;
    if a.eq.Some? && a.eq.value != c { Distinct(cs, a.eq.value, c); }
    OnOne(a.ne, c, cs, at, p);
  }

  /** On a constant, it is enough that this one is not excluded. */
  lemma {:induction false} OnOne(ne: seq<Const>, c: Const, cs: iset<Const>, at: Place, p: real)
    requires Ordered(cs) && Placed(cs, at, p) && c in cs && forall n :: n in ne ==> n in cs
    ensures at(c) == 0 ==> (Avoids(ne, at) <==> c !in ne)
    ensures Avoids([], at)
  {
    hide Less, LessEq, Worth;
    forall n | n in ne && n != c ensures Worth(n) != Worth(c) { Distinct(cs, n, c); }
  }

  lemma {:induction false} AndEqDrawn(a: Leaf, b: Leaf, ts: iset<Term>)
    requires Closed(ts) && Drawn(a, ts) && Drawn(b, ts) && b.eq.Some?
    ensures var s := AndEq(a, b); s.Go? ==> Drawn(s.a, ts) && Drawn(s.b, ts)
  {
    hide Less, LessEq, Closed, Lists;
    NoneListed(ts);
  }

  lemma {:induction false} AvoidsFew(ne: seq<Const>, at: Place)
    ensures AvoidsOne(ne, at) <==> exists i :: 0 <= i < |ne| && at(ne[i]) != 0
    ensures |ne| == 1 ==> ne == [ne[0]] && (AvoidsOne(ne, at) <==> at(ne[0]) != 0)
    ensures |ne| == 0 ==> !AvoidsOne(ne, at)
  {
  }

  lemma {:induction false} AvoidsThis(c: Const, at: Place)
    ensures AvoidsOne([c], at) <==> at(c) != 0
    ensures [c][0] == c
  {
    AvoidsFew([c], at);
  }

  lemma {:induction false} OrLtRayFaithful(a: Leaf, b: Leaf, cs: iset<Const>, at: Place, p: real)
    requires Seen(a, b, cs, at, p) && NormalOr(a) && b.lt.Some? && (a.eq.Some? ==> Less(b.lt.value, a.eq.value))
    ensures Faithful(Or, a, b, OrLtRay(a, b), at)
  {
    hide Less, LessEq, Worth, AvoidsOne;
    AvoidsThis(b.lt.value, at);
    AvoidsFew(a.ne, at);
  }

  lemma {:induction false} OrLtRayNormal(a: Leaf, b: Leaf, cs: iset<Const>)
    requires Ordered(cs) && From(a, cs) && From(b, cs) && NormalOr(a) && b.lt.Some?
    requires a.eq.Some? ==> Less(b.lt.value, a.eq.value)
    ensures var s := OrLtRay(a, b); s.Go? ==> NormalOr(s.a) && s.b == b.(lt := None)
  {
    hide Less, LessEq, Worth;
  }

  lemma {:induction false} OrLtFaithful(a: Leaf, b: Leaf, cs: iset<Const>, at: Place, p: real)
    requires Seen(a, b, cs, at, p) && NormalOr(a) && b.lt.Some? && b.le.None?
    ensures Faithful(Or, a, b, OrLt(a, b), at)
    ensures var s := OrLt(a, b); s.Go? ==> NormalOr(s.a) && s.b == b.(lt := None, le := s.b.le)
  {
    hide Less, LessEq, Worth, AvoidsOne, OrLtRay;
    if a.eq.None? || Less(b.lt.value, a.eq.value) {
      OrLtRayFaithful(a, b, cs, at, p);
      OrLtRayNormal(a, b, cs);
    } else if a.eq != b.lt {
      OrLtRayFaithful(a.(eq := None), b, cs, at, p);
      OrLtRayNormal(a.(eq := None), b, cs);
    }
  }

  lemma {:induction false} OrLtDrawn(a: Leaf, b: Leaf, ts: iset<Term>)
    requires Closed(ts) && Drawn(a, ts) && Drawn(b, ts) && b.lt.Some?
    ensures var s := OrLt(a, b); s.Go? ==> Drawn(s.a, ts) && Drawn(s.b, ts)
  {
    hide Less, LessEq, Closed, Lists;
    NoneListed(ts);
    var c := b.lt.value;
    if a.eq == Some(c) { Both(ts, Lt, Eq, c); }
    if a.gt == Some(c) { Both(ts, Lt, Gt, c); }
  }

  lemma {:induction false} OrGtRayFaithful(a: Leaf, b: Leaf, cs: iset<Const>, at: Place, p: real)
    requires Seen(a, b, cs, at, p) && NormalOr(a) && b.gt.Some? && (a.eq.Some? ==> Less(a.eq.value, b.gt.value))
    ensures Faithful(Or, a, b, OrGtRay(a, b), at)
  {
    hide Less, LessEq, Worth, AvoidsOne;
    AvoidsThis(b.gt.value, at);
    AvoidsFew(a.ne, at);
  }

  lemma {:induction false} OrGtRayNormal(a: Leaf, b: Leaf, cs: iset<Const>)
    requires Ordered(cs) && From(a, cs) && From(b, cs) && NormalOr(a) && b.gt.Some?
    requires a.eq.Some? ==> Less(a.eq.value, b.gt.value)
    ensures var s := OrGtRay(a, b); s.Go? ==> NormalOr(s.a) && s.b == b.(gt := None)
  {
    hide Less, LessEq, Worth;
  }

  lemma {:induction false} OrGtFaithful(a: Leaf, b: Leaf, cs: iset<Const>, at: Place, p: real)
    requires Seen(a, b, cs, at, p) && NormalOr(a) && b.gt.Some? && b.ge.None?
    ensures Faithful(Or, a, b, OrGt(a, b), at)
    ensures var s := OrGt(a, b); s.Go? ==> NormalOr(s.a) && s.b == b.(gt := None, ge := s.b.ge)
  {
    hide Less, LessEq, Worth, AvoidsOne, OrGtRay;
    if a.eq.None? || Less(a.eq.value, b.gt.value) {
      OrGtRayFaithful(a, b, cs, at, p);
      OrGtRayNormal(a, b, cs);
    } else if a.eq != b.gt {
      OrGtRayFaithful(a.(eq := None), b, cs, at, p);
      OrGtRayNormal(a.(eq := None), b, cs);
    }
  }

  lemma {:induction false} OrGtDrawn(a: Leaf, b: Leaf, ts: iset<Term>)
    requires Closed(ts) && Drawn(a, ts) && Drawn(b, ts) && b.gt.Some?
    ensures var s := OrGt(a, b); s.Go? ==> Drawn(s.a, ts) && Drawn(s.b, ts)
  {
    hide Less, LessEq, Closed, Lists;
    NoneListed(ts);
    var c := b.gt.value;
    if a.eq == Some(c) { Both(ts, Gt, Eq, c); }
    if a.lt == Some(c) { Both(ts, Gt, Lt, c); }
  }

  lemma {:induction false} OrLeFaithful(a: Leaf, b: Leaf, cs: iset<Const>, at: Place, p: real)
    requires Seen(a, b, cs, at, p) && NormalOr(a) && b.le.Some? && b.lt.None?
    ensures Faithful(Or, a, b, OrLe(a, b), at)
  {
    hide Less, LessEq, Worth, AvoidsOne;
    AvoidsFew(a.ne, at);
  }

  lemma {:induction false} OrLeNormal(a: Leaf, b: Leaf, cs: iset<Const>)
    requires Ordered(cs) && From(a, cs) && From(b, cs) && NormalOr(a) && b.le.Some? && b.lt.None?
    ensures var s := OrLe(a, b); s.Go? ==> NormalOr(s.a) && s.b == b.(le := None)
  {
    hide Less, LessEq, Worth;
  }

  lemma {:induction false} OrLeDrawn(a: Leaf, b: Leaf, ts: iset<Term>)
    requires Closed(ts) && Drawn(a, ts) && Drawn(b, ts) && b.le.Some?
    ensures var s := OrLe(a, b); s.Go? ==> Drawn(s.a, ts) && Drawn(s.b, ts)
  {
    hide Less, LessEq, Closed, Lists;
    NoneListed(ts);
  }

  lemma {:induction false} OrGeFaithful(a: Leaf, b: Leaf, cs: iset<Const>, at: Place, p: real)
    requires Seen(a, b, cs, at, p) && NormalOr(a) && b.ge.Some? && b.gt.None?
    ensures Faithful(Or, a, b, OrGe(a, b), at)
  {
    hide Less, LessEq, Worth, AvoidsOne;
    AvoidsFew(a.ne, at);
  }

  lemma {:induction false} OrGeNormal(a: Leaf, b: Leaf, cs: iset<Const>)
    requires Ordered(cs) && From(a, cs) && From(b, cs) && NormalOr(a) && b.ge.Some? && b.gt.None?
    ensures var s := OrGe(a, b); s.Go? ==> NormalOr(s.a) && s.b == b.(ge := None)
  {
    hide Less, LessEq, Worth;
  }

  lemma {:induction false} OrGeDrawn(a: Leaf, b: Leaf, ts: iset<Term>)
    requires Closed(ts) && Drawn(a, ts) && Drawn(b, ts) && b.ge.Some?
    ensures var s := OrGe(a, b); s.Go? ==> Drawn(s.a, ts) && Drawn(s.b, ts)
  {
    hide Less, LessEq, Closed, Lists;
    NoneListed(ts);
  }

  lemma {:induction false} OrNeFaithful(a: Leaf, b: Leaf, cs: iset<Const>, at: Place, p: real)
    requires Seen(a, b, cs, at, p) && NormalOr(a) && |b.ne| == 1
    ensures Faithful(Or, a, b, OrNe(a, b), at)
    ensures var s := OrNe(a, b); s.Go? ==> NormalOr(s.a) && s.a.eq.None? && s.b == b.(ne := [])
  {
    hide Less, LessEq, Worth, AvoidsOne;
    var c := b.ne[0];
    assert c in b.ne && b.ne[1..] == [];
    AvoidsThis(c, at);
    AvoidsFew(a.ne, at);
    AvoidsFew(b.ne, at);
    AvoidsFew([], at);
    if a.ne != [] && a.ne[0] != c { Distinct(cs, a.ne[0], c); }
    if a.eq.Some? && a.eq.value != c { Distinct(cs, a.eq.value, c); }
  }

  lemma {:induction false} OrNeDrawn(a: Leaf, b: Leaf, ts: iset<Term>)
    requires Closed(ts) && Drawn(a, ts) && Drawn(b, ts) && b.ne != []
    ensures var s := OrNe(a, b); s.Go? ==> Drawn(s.a, ts) && Drawn(s.b, ts)
  {
    hide Less, LessEq, Closed, Lists;
    NoneListed(ts);
    assert b.ne[0] in b.ne && forall c :: c in b.ne[1..] ==> c in b.ne;
  }

  lemma {:induction false} OrEqTakes(a: Leaf, b: Leaf, cs: iset<Const>, at: Place, p: real)
    requires Ordered(cs) && Placed(cs, at, p) && From(a, cs) && NormalOr(a) && b.eq.Some? && b.eq.value in cs
    ensures var s, both := OrEq(a, b), Admits(Or, a, at) || at(b.eq.value) == 0;
            && (s.Stop? ==> both)
            && (s.Go? ==> s == Go(a, b) || (s.b == b.(eq := None) && (Admits(Or, s.a, at) <==> both)))
  {
    hide Less, LessEq, Worth, AvoidsOne;
    AvoidsFew(a.ne, at);
    if a.ne != [] && a.ne[0] != b.eq.value { Distinct(cs, a.ne[0], b.eq.value); }
  }

  lemma {:induction false} OrEqFaithful(a: Leaf, b: Leaf, cs: iset<Const>, at: Place, p: real)
    requires Seen(a, b, cs, at, p) && NormalOr(a) && b.eq.Some?
    ensures Faithful(Or, a, b, OrEq(a, b), at)
  {
    hide OrEq, Ordered, Placed, NormalOr;
    OrEqTakes(a, b, cs, at, p);
  }

  lemma {:induction false} OrEqNormal(a: Leaf, b: Leaf, cs: iset<Const>)
    requires Ordered(cs) && From(a, cs) && From(b, cs) && NormalOr(a) && b.eq.Some?
    ensures OrEq(a, b).Go? ==> NormalOr(OrEq(a, b).a)
  {
    hide Less, LessEq, Worth;
    var c := b.eq.value;
    if a.lt.Some? && a.lt.value != c { Distinct(cs, a.lt.value, c); }
    if a.gt.Some? && a.gt.value != c { Distinct(cs, a.gt.value, c); }
    if a.eq.Some? && a.eq.value != c { Distinct(cs, a.eq.value, c); }
  }

  lemma {:induction false} OrEqDrawn(a: Leaf, b: Leaf, ts: iset<Term>)
    requires Closed(ts) && Drawn(a, ts) && Drawn(b, ts) && b.eq.Some?
    ensures var s := OrEq(a, b); s.Go? ==> Drawn(s.a, ts) && Drawn(s.b, ts)
  {
    hide Less, LessEq, Closed, Lists;
    NoneListed(ts);
    var c := b.eq.value;
    if a.lt == Some(c) { Both(ts, Lt, Eq, c); }
    if a.gt == Some(c) { Both(ts, Gt, Eq, c); }
  }

  // ----- a whole merge -----

  lemma {:induction false} FromAny(l: Leaf, cs: iset<Const>)
    ensures From(l, cs) <==> Drawn(l, Any(cs))
  {
  }

  lemma {:induction false} AndBoundsMeans(a: Leaf, b: Leaf, cs: iset<Const>, at: Place, p: real)
    requires Seen(a, b, cs, at, p) && NormalAnd(a) && OneSided(b)
    ensures Faithful(And, a, b, AndBounds(a, b), at)
    ensures var s := AndBounds(a, b); s.Go? ==>
              && NormalAnd(s.a) && Seen(s.a, s.b, cs, at, p)
              && s.b.le.None? && s.b.ge.None? && s.b.lt.None? && s.b.gt.None?
  {
    hide AndLe, AndGe, AndLt, AndGt, Admits, Ordered, Placed, NormalAnd, From, Drawn;
    AnyClosed(cs);
    FromAny(a, cs);
    FromAny(b, cs);
    var s1 := if b.le.Some? then AndLe(a, b) else Go(a, b);
    if b.le.Some? {
      AndLeFaithful(a, b, cs, at, p);
      AndLeNormal(a, b, cs);
      AndLeDrawn(a, b, Any(cs));
    }
    if s1.Go? { FromAny(s1.a, cs); FromAny(s1.b, cs); }
    var s2 := if s1.Go? && s1.b.ge.Some? then AndGe(s1.a, s1.b) else s1;
    if s1.Go? && s1.b.ge.Some? {
      AndGeFaithful(s1.a, s1.b, cs, at, p);
      AndGeNormal(s1.a, s1.b, cs);
      AndGeDrawn(s1.a, s1.b, Any(cs));
    }
    if s2.Go? { FromAny(s2.a, cs); FromAny(s2.b, cs); }
    AndOpenMeans(a, b, s2, cs, at, p);
  }

  lemma {:induction false} AndOpenMeans(a: Leaf, b: Leaf, s2: Step, cs: iset<Const>, at: Place, p: real)
    requires Faithful(And, a, b, s2, at)
    requires s2.Go? ==> Seen(s2.a, s2.b, cs, at, p) && NormalAnd(s2.a)
    ensures var s3 := if s2.Go? && s2.b.lt.Some? then AndLt(s2.a, s2.b) else s2;
            var s := if s3.Go? && s3.b.gt.Some? then AndGt(s3.a, s3.b) else s3;
            && Faithful(And, a, b, s, at)
            && (s.Go? ==> NormalAnd(s.a) && Seen(s.a, s.b, cs, at, p) && s.b.lt.None? && s.b.gt.None?)
            && (s.Go? ==> s2.Go? && s.b == s2.b.(lt := None, gt := None))
  {
    hide AndLt, AndGt, Admits, Ordered, Placed, NormalAnd, From, Drawn;
    AnyClosed(cs);
    if s2.Go? {
      FromAny(s2.a, cs);
      FromAny(s2.b, cs);
      var s3 := if s2.b.lt.Some? then AndLt(s2.a, s2.b) else s2;
      if s2.b.lt.Some? {
        AndLtFaithful(s2.a, s2.b, cs, at, p);
        AndLtNormal(s2.a, s2.b, cs);
        AndLtDrawn(s2.a, s2.b, Any(cs));
      }
      if s3.Go? {
        FromAny(s3.a, cs);
        FromAny(s3.b, cs);
        if s3.b.gt.Some? {
          AndGtFaithful(s3.a, s3.b, cs, at, p);
          AndGtNormal(s3.a, s3.b, cs);
          AndGtDrawn(s3.a, s3.b, Any(cs));
          var s := AndGt(s3.a, s3.b);
          if s.Go? { FromAny(s.a, cs); FromAny(s.b, cs); }
        }
      }
    }
  }

  lemma {:induction false} AndPointsMeans(a: Leaf, b: Leaf, cs: iset<Const>, at: Place, p: real)
    requires Seen(a, b, cs, at, p) && NormalAnd(a) && b.le.None? && b.ge.None? && b.lt.None? && b.gt.None?
    ensures Faithful(And, a, b, AndPoints(a, b), at)
    ensures AndPoints(a, b).Go? ==> NormalAnd(AndPoints(a, b).a) && Empty(AndPoints(a, b).b)
  {
    hide AndNe, AndEq, Admits, Ordered, Placed, NormalAnd, From, Drawn;
    AnyClosed(cs);
    FromAny(a, cs);
    FromAny(b, cs);
    var s1 := if b.ne != [] then AndNe(a, b) else Go(a, b);
    if b.ne != [] {
      AndNeFaithful(a, b, cs, at, p);
      AndNeDrawn(a, b, Any(cs));
    }
    if s1.Go? {
      FromAny(s1.a, cs);
      FromAny(s1.b, cs);
      if s1.b.eq.Some? { AndEqFaithful(s1.a, s1.b, cs, at, p); }
    }
  }

  lemma {:induction false} OrOpenMeans(a: Leaf, b: Leaf, cs: iset<Const>, at: Place, p: real)
    requires Seen(a, b, cs, at, p) && NormalOr(a) && OneSided(b)
    ensures Faithful(Or, a, b, OrOpen(a, b), at)
    ensures var s := OrOpen(a, b); s.Go? ==>
              && NormalOr(s.a) && Seen(s.a, s.b, cs, at, p)
              && s.b.lt.None? && s.b.gt.None? && s.b.ne == b.ne && s.b.eq == b.eq
  {
    hide OrLt, OrGt, Admits, Ordered, Placed, NormalOr, From, Drawn;
    AnyClosed(cs);
    FromAny(a, cs);
    FromAny(b, cs);
    var s1 := if b.lt.Some? then OrLt(a, b) else Go(a, b);
    if b.lt.Some? {
      OrLtFaithful(a, b, cs, at, p);
      OrLtDrawn(a, b, Any(cs));
    }
    if s1.Go? {
      FromAny(s1.a, cs);
      FromAny(s1.b, cs);
      if s1.b.gt.Some? {
        OrGtFaithful(s1.a, s1.b, cs, at, p);
        OrGtDrawn(s1.a, s1.b, Any(cs));
        var s := OrGt(s1.a, s1.b);
        if s.Go? { FromAny(s.a, cs); FromAny(s.b, cs); }
      }
    }
  }

  lemma {:induction false} OrClosedMeans(a: Leaf, b: Leaf, cs: iset<Const>, at: Place, p: real)
    requires Seen(a, b, cs, at, p) && NormalOr(a) && b.lt.None? && b.gt.None?
    ensures Faithful(Or, a, b, OrClosed(a, b), at)
    ensures var s := OrClosed(a, b); s.Go? ==>
              && NormalOr(s.a) && Seen(s.a, s.b, cs, at, p)
              && s.b.lt.None? && s.b.gt.None? && s.b.le.None? && s.b.ge.None? && s.b.ne == b.ne && s.b.eq == b.eq
  {
    hide OrLe, OrGe, Admits, Ordered, Placed, NormalOr, From, Drawn;
    AnyClosed(cs);
    FromAny(a, cs);
    FromAny(b, cs);
    var s1 := if b.le.Some? then OrLe(a, b) else Go(a, b);
    if b.le.Some? {
      OrLeFaithful(a, b, cs, at, p);
      OrLeNormal(a, b, cs);
      OrLeDrawn(a, b, Any(cs));
    }
    if s1.Go? {
      FromAny(s1.a, cs);
      FromAny(s1.b, cs);
      if s1.b.ge.Some? {
        OrGeFaithful(s1.a, s1.b, cs, at, p);
        OrGeNormal(s1.a, s1.b, cs);
        OrGeDrawn(s1.a, s1.b, Any(cs));
        var s := OrGe(s1.a, s1.b);
        if s.Go? { FromAny(s.a, cs); FromAny(s.b, cs); }
      }
    }
  }

  lemma {:induction false} OrPointsMeans(a: Leaf, b: Leaf, cs: iset<Const>, at: Place, p: real)
    requires Seen(a, b, cs, at, p) && NormalOr(a) && |b.ne| <= 1
    ensures Faithful(Or, a, b, OrPoints(a, b), at)
    ensures OrPoints(a, b).Go? ==> NormalOr(OrPoints(a, b).a)
  {
    hide OrNe, OrEq, Admits, Ordered, Placed, NormalOr, From, Drawn;
    AnyClosed(cs);
    FromAny(a, cs);
    FromAny(b, cs);
    var s1 := if b.ne != [] then OrNe(a, b) else Go(a, b);
    if b.ne != [] {
      OrNeFaithful(a, b, cs, at, p);
      OrNeDrawn(a, b, Any(cs));
    }
    if s1.Go? {
      FromAny(s1.a, cs);
      FromAny(s1.b, cs);
      if s1.b.eq.Some? {
        OrEqFaithful(s1.a, s1.b, cs, at, p);
        OrEqNormal(s1.a, s1.b, cs);
      }
    }
  }

  /** A pass of the AND merges keeps what the pair means and leaves one canonical leaf. */
  lemma {:induction false} AndPassMeans(a: Leaf, b: Leaf, cs: iset<Const>, at: Place, p: real)
    requires Seen(a, b, cs, at, p) && NormalAnd(a) && NormalAnd(b)
    ensures Faithful(And, a, b, AndPass(a, b), at)
    ensures AndPass(a, b).Go? ==> NormalAnd(AndPass(a, b).a) && Empty(AndPass(a, b).b)
  {
    hide AndBounds, AndPoints, Admits, Ordered, Placed, From, Drawn;
    AndBoundsMeans(a, b, cs, at, p);
    var s := AndBounds(a, b);
    if s.Go? { AndPointsMeans(s.a, s.b, cs, at, p); }
  }

  lemma {:induction false} OrPassMeans(a: Leaf, b: Leaf, cs: iset<Const>, at: Place, p: real)
    requires Seen(a, b, cs, at, p) && NormalOr(a) && NormalOr(b)
    ensures Faithful(Or, a, b, OrPass(a, b), at)
    ensures var s := OrPass(a, b); s.Go? ==> NormalOr(s.a) && NormalOr(s.b)
  {
    hide OrOpen, OrClosed, OrPoints, Admits, Ordered, Placed, From, Drawn;
    OrPassShape(a, b);
    OrOpenMeans(a, b, cs, at, p);
    var s := OrOpen(a, b);
    if s.Go? {
      OrClosedMeans(s.a, s.b, cs, at, p);
      var t := OrClosed(s.a, s.b);
      if t.Go? { OrPointsMeans(t.a, t.b, cs, at, p); }
    }
  }

  /** What an OR pass may leave behind: a second leaf with nothing but an equality, beside a first
      leaf that holds another one and has no exclusion. */
  predicate TwoPoints(a: Leaf, b: Leaf) {
    && a.eq.Some? && a.ne == []
    && b.eq.Some? && Empty(b.(eq := None)) && a.eq != b.eq
    && OrEq(a, b) == Go(a, b)
  }

  /** Under OR a leaf excludes one constant at most. */
  predicate Shaped(op: Op, l: Leaf) {
    op == Or ==> |l.ne| <= 1
  }

  lemma {:induction false} OrRaysShape(a: Leaf, b: Leaf)
    requires Shaped(Or, a)
    ensures b.lt.Some? && OrLt(a, b).Go? ==>
              var s := OrLt(a, b); Shaped(Or, s.a) && s.b == b.(lt := None, le := s.b.le)
    ensures b.gt.Some? && OrGt(a, b).Go? ==>
              var s := OrGt(a, b); Shaped(Or, s.a) && s.b == b.(gt := None, ge := s.b.ge)
    ensures b.le.Some? && OrLe(a, b).Go? ==> Shaped(Or, OrLe(a, b).a) && OrLe(a, b).b == b.(le := None)
    ensures b.ge.Some? && OrGe(a, b).Go? ==> Shaped(Or, OrGe(a, b).a) && OrGe(a, b).b == b.(ge := None)
  {
    hide Less, LessEq;
  }

  /** Whatever the constants, a pass leaves nothing behind in the second leaf, or an equality. */
  lemma {:induction false} OrPassShape(a: Leaf, b: Leaf)
    requires Shaped(Or, a) && Shaped(Or, b)
    ensures var s := OrPass(a, b); s.Go? ==> Shaped(Or, s.a) && (Empty(s.b) || TwoPoints(s.a, s.b))
  {
    hide OrLt, OrGt, OrLe, OrGe, Less, LessEq;
    var s1 := if b.lt.Some? then OrLt(a, b) else Go(a, b);
    OrRaysShape(a, b);
    if s1.Go? {
      OrRaysShape(s1.a, s1.b);
      var s2 := if s1.b.gt.Some? then OrGt(s1.a, s1.b) else s1;
      if s2.Go? {
        OrRaysShape(s2.a, s2.b);
        var s3 := if s2.b.le.Some? then OrLe(s2.a, s2.b) else s2;
        if s3.Go? {
          OrRaysShape(s3.a, s3.b);
          var s4 := if s3.b.ge.Some? then OrGe(s3.a, s3.b) else s3;
          if s4.Go? { OrPointsShape(s4.a, s4.b); }
        }
      }
    }
  }

  lemma {:induction false} OrPointsShape(a: Leaf, b: Leaf)
    requires Shaped(Or, a) && Shaped(Or, b) && b.lt.None? && b.gt.None? && b.le.None? && b.ge.None?
    ensures var s := OrPoints(a, b); s.Go? ==> Shaped(Or, s.a) && (Empty(s.b) || TwoPoints(s.a, s.b))
  {
    hide Less, LessEq;
  }

  /** The outcome of merging two leaves of one parent: the parent collapses, one leaf takes the place
      of both, or (OR only) both stay. */
  datatype Merge = Collapsed | Merged(leaf: Leaf) | Kept(left: Leaf, right: Leaf)

  /** The OR pass runs once for the second leaf and once more for every sibling after it. */
  function OrPasses(a: Leaf, b: Leaf, siblings: nat): Step
    decreases siblings
  {
    var s := OrPass(a, b);
    if s.Stop? || siblings == 0 then s else OrPasses(s.a, s.b, siblings - 1)
  }

  function Combine(op: Op, a: Leaf, b: Leaf, siblings: nat): Merge {
    match op
    case And =>
      var s := AndPass(a, b);
      if s.Stop? then Collapsed else Merged(s.a)
    case Or =>
      var s := OrPasses(a, b, siblings);
      if s.Stop? then Collapsed else if Empty(s.b) then Merged(s.a) else Kept(s.a, s.b)
  }

  /** Running the pass again changes nothing. */
  lemma {:induction false} OrPassesOnce(a: Leaf, b: Leaf, siblings: nat)
    requires Shaped(Or, a) && Shaped(Or, b)
    ensures OrPasses(a, b, siblings) == OrPass(a, b)
    decreases siblings
  {
    hide OrPass, TwoPoints;
    OrPassShape(a, b);
    var s := OrPass(a, b);
    if s.Go? && siblings > 0 {
      OrPassIdle(s.a, s.b);
      OrPassesOnce(s.a, s.b, siblings - 1);
    }
  }

  lemma {:induction false} OrPassIdle(a: Leaf, b: Leaf)
    requires Empty(b) || TwoPoints(a, b)
    ensures OrPass(a, b) == Go(a, b) && NormalOr(b)
  {
  }

  predicate MergeAdmits(op: Op, m: Merge, at: Place) {
    match m
    case Collapsed => op == Or
    case Merged(l) => Admits(op, l, at)
    case Kept(l, r) => Joined(op, Admits(op, l, at), Admits(op, r, at))
  }

  predicate NormalMerge(op: Op, m: Merge) {
    match m
    case Collapsed => true
    case Merged(l) => Normal(op, l)
    case Kept(l, r) => op == Or && NormalOr(l) && NormalOr(r)
  }

  /** Where leaves stay two after a merge, each is an equality that adds something. */
  lemma {:induction false} CombineShape(op: Op, a: Leaf, b: Leaf, siblings: nat)
    requires Shaped(op, a) && Shaped(op, b)
    ensures match Combine(op, a, b, siblings)
            case Collapsed => true
            case Merged(l) => Shaped(op, l)
            case Kept(l, r) => op == Or && Shaped(op, l) && Shaped(op, r) && TwoPoints(l, r)
  {
    hide AndPass, OrPass, OrEq;
    if op == Or {
      OrPassesOnce(a, b, siblings);
      OrPassShape(a, b);
    }
  }

  lemma {:induction false} CombinePlaced(op: Op, a: Leaf, b: Leaf, siblings: nat, cs: iset<Const>, at: Place, p: real)
    requires Seen(a, b, cs, at, p) && Normal(op, a) && Normal(op, b)
    ensures MergeAdmits(op, Combine(op, a, b, siblings), at) <==> Joined(op, Admits(op, a, at), Admits(op, b, at))
    ensures NormalMerge(op, Combine(op, a, b, siblings))
  {
    hide AndPass, OrPass, Seen;
    match op
    case And =>
      AndPassMeans(a, b, cs, at, p);
      if AndPass(a, b).Go? { EmptyAdmits(AndPass(a, b).b, at); }
    case Or =>
      OrPassesOnce(a, b, siblings);
      OrPassMeans(a, b, cs, at, p);
      if OrPass(a, b).Go? { EmptyAdmits(OrPass(a, b).b, at); }
  }

  lemma {:induction false} EmptyAdmits(l: Leaf, at: Place)
    ensures Empty(l) ==> Admits(And, l, at) && !Admits(Or, l, at)
  {
  }

  // ----- which constraints a merge leaves -----

  lemma {:induction false} AndPassDrawn(a: Leaf, b: Leaf, ts: iset<Term>)
    requires Closed(ts) && Drawn(a, ts) && Drawn(b, ts)
    ensures AndPass(a, b).Go? ==> Drawn(AndPass(a, b).a, ts)
  {
    hide AndLe, AndGe, AndLt, AndGt, AndNe, AndEq, Drawn, Closed;
    var s1 := if b.le.Some? then AndLe(a, b) else Go(a, b);
    if b.le.Some? { AndLeDrawn(a, b, ts); }
    var s2 := if s1.Go? && s1.b.ge.Some? then AndGe(s1.a, s1.b) else s1;
    if s1.Go? && s1.b.ge.Some? { AndGeDrawn(s1.a, s1.b, ts); }
    var s3 := if s2.Go? && s2.b.lt.Some? then AndLt(s2.a, s2.b) else s2;
    if s2.Go? && s2.b.lt.Some? { AndLtDrawn(s2.a, s2.b, ts); }
    var s4 := if s3.Go? && s3.b.gt.Some? then AndGt(s3.a, s3.b) else s3;
    if s3.Go? && s3.b.gt.Some? { AndGtDrawn(s3.a, s3.b, ts); }
    if s4.Go? {
      var s5 := if s4.b.ne != [] then AndNe(s4.a, s4.b) else s4;
      AndNeDrawn(s4.a, s4.b, ts);
      if s5.Go? && s5.b.eq.Some? { AndEqDrawn(s5.a, s5.b, ts); }
    }
  }

  lemma {:induction false} OrPassDrawn(a: Leaf, b: Leaf, ts: iset<Term>)
    requires Closed(ts) && Drawn(a, ts) && Drawn(b, ts)
    ensures OrPass(a, b).Go? ==> Drawn(OrPass(a, b).a, ts) && Drawn(OrPass(a, b).b, ts)
  {
    hide OrLt, OrGt, OrLe, OrGe, OrNe, OrEq, Drawn, Closed;
    var s1 := if b.lt.Some? then OrLt(a, b) else Go(a, b);
    if b.lt.Some? { OrLtDrawn(a, b, ts); }
    var s2 := if s1.Go? && s1.b.gt.Some? then OrGt(s1.a, s1.b) else s1;
    if s1.Go? && s1.b.gt.Some? { OrGtDrawn(s1.a, s1.b, ts); }
    var s3 := if s2.Go? && s2.b.le.Some? then OrLe(s2.a, s2.b) else s2;
    if s2.Go? && s2.b.le.Some? { OrLeDrawn(s2.a, s2.b, ts); }
    var s4 := if s3.Go? && s3.b.ge.Some? then OrGe(s3.a, s3.b) else s3;
    if s3.Go? && s3.b.ge.Some? { OrGeDrawn(s3.a, s3.b, ts); }
    if s4.Go? {
      var s5 := if s4.b.ne != [] then OrNe(s4.a, s4.b) else s4;
      if s4.b.ne != [] { OrNeDrawn(s4.a, s4.b, ts); }
      if s5.Go? && s5.b.eq.Some? { OrEqDrawn(s5.a, s5.b, ts); }
    }
  }

  /** A merge makes no constraint of its own, except that a constant that is there for two things may be there
      for a third. */
  lemma {:induction false} CombineDrawn(op: Op, a: Leaf, b: Leaf, siblings: nat, ts: iset<Term>)
    requires Closed(ts) && Drawn(a, ts) && Drawn(b, ts) && Shaped(op, a) && Shaped(op, b)
    ensures match Combine(op, a, b, siblings)
            case Collapsed => true
            case Merged(l) => Drawn(l, ts)
            case Kept(l, r) => Drawn(l, ts) && Drawn(r, ts)
  {
    hide AndPass, OrPass, Drawn, Closed;
    if op == And {
      AndPassDrawn(a, b, ts);
    } else {
      OrPassesOnce(a, b, siblings);
      OrPassDrawn(a, b, ts);
    }
  }

  // ----- merging leaves for the keys of a tag -----

  predicate Uses(l: Leaf, c: Const) {
    l.lt == Some(c) || l.le == Some(c) || l.gt == Some(c) || l.ge == Some(c) || l.eq == Some(c) || c in l.ne
  }

  ghost function ConstsOf(a: Leaf, b: Leaf): iset<Const> {
    iset c: Const | Uses(a, c) || Uses(b, c)
  }

  lemma {:induction false} FromOwn(a: Leaf, b: Leaf)
    ensures From(a, ConstsOf(a, b)) && From(b, ConstsOf(a, b))
  {
  }

  /** An equality and an exclusion of which one begins the other. */
  predicate Parted(eq: Const, ne: seq<Const>) {
    exists i :: 0 <= i < |ne| && |ne[i]| != |eq| && Order(eq, ne[i]) == 0
  }

  /** Leaves that are not merged: the equality of one begins an exclusion of the other, or is begun by it. */
  predicate KeptApart(a: Leaf, b: Leaf) {
    if a.eq.Some? && b.ne != [] then Parted(a.eq.value, b.ne)
    else b.eq.Some? && a.ne != [] && Parted(b.eq.value, a.ne)
  }

  lemma {:induction false} RoleOf(l: Leaf, c: Const, ts: iset<Term>) returns (r: Role)
    requires Drawn(l, ts) && Uses(l, c)
    ensures Term(r, c) in ts && Has(l, Term(r, c))
  {
    r := if l.lt == Some(c) then Lt else if l.le == Some(c) then Le else if l.gt == Some(c) then Gt
         else if l.ge == Some(c) then Ge else if l.eq == Some(c) then Eq else Ne;
  }

  lemma {:induction false} EqNeParted(op: Op, a: Leaf, b: Leaf, c: Const, d: Const)
    requires Normal(op, a) && Normal(op, b) && Comparable(c, d)
    requires (a.eq == Some(c) || b.eq == Some(c)) && (d in a.ne || d in b.ne)
    ensures KeptApart(a, b)
  {
    SameLength(c, d);
    var ne := if a.eq == Some(c) then b.ne else a.ne;
    assert d in ne;
    var i :| 0 <= i < |ne| && ne[i] == d;
    assert Parted(c, ne);
  }

  /** Where only equalities and exclusions begin each other, the leaves that are merged have constants none of
      which begins another. */
  lemma {:induction false} MergedApart(op: Op, a: Leaf, b: Leaf, ts: iset<Term>)
    requires Clear(ts) && Drawn(a, ts) && Drawn(b, ts) && Normal(op, a) && Normal(op, b) && !KeptApart(a, b)
    ensures Antichain(ConstsOf(a, b))
  {
    forall c, d | c in ConstsOf(a, b) && d in ConstsOf(a, b) ensures !Comparable(c, d) {
      if Comparable(c, d) {
        var r := RoleOf(if Uses(a, c) then a else b, c, ts);
        var q := RoleOf(if Uses(a, d) then a else b, d, ts);
        assert Term(r, c) in ts && Term(q, d) in ts;
        SameLength(c, d);
        if r == Eq { EqNeParted(op, a, b, c, d); } else { EqNeParted(op, a, b, d, c); }
      }
    }
  }

  /** Merging two leaves keeps what the pair means for every key, where no constant of theirs begins another. */
  lemma {:induction false} CombineMeans(op: Op, a: Leaf, b: Leaf, siblings: nat, key: seq<Byte>)
    requires Normal(op, a) && Normal(op, b) && Antichain(ConstsOf(a, b))
    requires forall c :: c in ConstsOf(a, b) ==> |c| <= |key|
    ensures MergeAdmits(op, Combine(op, a, b, siblings), PlaceOf(key))
            <==> Joined(op, Admits(op, a, PlaceOf(key)), Admits(op, b, PlaceOf(key)))
    ensures NormalMerge(op, Combine(op, a, b, siblings))
  {
    hide Combine, Admits, From;
    var cs := ConstsOf(a, b);
    AntichainOrdered(cs);
    FromOwn(a, b);
    var p := KeyPlaced(cs, key);
    CombinePlaced(op, a, b, siblings, cs, PlaceOf(key), p);
  }

  // ----- constants of which one begins the other -----

  /** A comparison that holds of the keys before its constant. */
  predicate HoldsBefore(q: Role) {
    q in {Lt, Le, Ne}
  }

  /** What a merge makes of keys that begin with the shorter of two constants, compared by `r`, where the longer,
      compared by `q`, begins with it too: for some pairs it takes all of them to lie before the longer one, and
      so errs for a key of which the comparison `q` `holds` otherwise than of those. */
  predicate Misjudged(op: Op, r: Role, q: Role, holds: bool) {
    && holds != HoldsBefore(q) && r !in {Lt, Ge}
    && if r in {Le, Eq} then op == And || HoldsBefore(q) else op == Or || !HoldsBefore(q)
  }

  /** A place as it can be for constants the first of which begins the second. */
  ghost predicate Nested(c: Const, d: Const, at: Place) {
    && |c| < |d| && Comparable(c, d)
    && (at(c) < 0 ==> at(d) < 0) && (at(c) > 0 ==> at(d) > 0)
  }

  lemma {:induction false} NestedLess(c: Const, d: Const)
    ensures |c| < |d| && Comparable(c, d) ==> Less(c, d) && LessEq(c, d) && !Less(d, c) && !LessEq(d, c) && c != d
    ensures |d| < |c| && Comparable(d, c) ==> Less(d, c) && LessEq(d, c) && !Less(c, d) && !LessEq(c, d) && c != d
  {
    SameLength(c, d);
  }

  lemma {:induction false} WithoutPair(c: Const, d: Const)
    ensures Without([c], Over(d)) == (if Less(d, c) then [] else [c]) && Without([], Over(d)) == []
    ensures Without([c], FromOn(d)) == (if LessEq(d, c) then [] else [c]) && Without([], FromOn(d)) == []
    ensures Without([c], Under(d)) == (if Less(c, d) then [] else [c]) && Without([], Under(d)) == []
    ensures Without([c], UpTo(d)) == (if LessEq(c, d) then [] else [c]) && Without([], UpTo(d)) == []
  {
    hide Less, LessEq;
    assert [c][1..] == [];
  }

  lemma {:induction false} NeOne(a: Leaf, d: Const)
    ensures AndNe(a, One(Ne, d))
         == if AndNeOne(a, d).None? then Stop else Go(AndNeOne(a, d).value, One(Ne, d).(ne := []))
  {
    hide AndNeOne;
    assert [d][0] == d && [d][1..] == [];
  }

  lemma {:induction false} AvoidsPair(c: Const, d: Const, at: Place)
    ensures Avoids([], at) && (Avoids([c], at) <==> at(c) != 0) && (Avoids([d], at) <==> at(d) != 0)
    ensures Avoids([c] + [d], at) <==> at(c) != 0 && at(d) != 0
    ensures Avoids([d] + [c], at) <==> at(c) != 0 && at(d) != 0
    ensures !AvoidsOne([], at) && (AvoidsOne([c], at) <==> at(c) != 0) && (AvoidsOne([d], at) <==> at(d) != 0)
    ensures [c][0] == c && [d][0] == d && [c][1..] == [] && [d][1..] == [] && [] + [d] == [d]
  {
    NeOneMore([c], d, at);
    NeOneMore([d], c, at);
    AvoidsThis(c, at);
    AvoidsThis(d, at);
    AvoidsFew([], at);
    assert c in [c] && d in [d];
  }

  /** Two leaves with one constraint each, and whether their merge errs at a place. */
  ghost predicate Errs(op: Op, r: Role, c: Const, q: Role, d: Const, at: Place) {
    at(c) == 0 && Misjudged(op, r, q, Admits(op, One(q, d), at))
  }

  ghost predicate PairRight(op: Op, r: Role, c: Const, q: Role, d: Const, at: Place) {
    MergeAdmits(op, Combine(op, One(r, c), One(q, d), 0), at)
    <==> Joined(op, Admits(op, One(r, c), at), Admits(op, One(q, d), at))
  }

  lemma {:induction false} AndPairLt(r: Role, c: Const, d: Const, at: Place)
    ensures Nested(c, d, at) ==> (PairRight(And, r, c, Lt, d, at) <==> !Errs(And, r, c, Lt, d, at))
    ensures Nested(d, c, at) ==> (PairRight(And, r, c, Lt, d, at) <==> !Errs(And, Lt, d, r, c, at))
  {
    NestedLess(c, d);
    AvoidsPair(c, d, at);
    WithoutPair(c, d);
    hide Less, LessEq, Comparable, Avoids, AvoidsOne, Without;
  }

  lemma {:induction false} AndPairLe(r: Role, c: Const, d: Const, at: Place)
    ensures Nested(c, d, at) ==> (PairRight(And, r, c, Le, d, at) <==> !Errs(And, r, c, Le, d, at))
    ensures Nested(d, c, at) ==> (PairRight(And, r, c, Le, d, at) <==> !Errs(And, Le, d, r, c, at))
  {
    NestedLess(c, d);
    AvoidsPair(c, d, at);
    WithoutPair(c, d);
    hide Less, LessEq, Comparable, Avoids, AvoidsOne, Without;
  }

  lemma {:induction false} AndPairGt(r: Role, c: Const, d: Const, at: Place)
    ensures Nested(c, d, at) ==> (PairRight(And, r, c, Gt, d, at) <==> !Errs(And, r, c, Gt, d, at))
    ensures Nested(d, c, at) ==> (PairRight(And, r, c, Gt, d, at) <==> !Errs(And, Gt, d, r, c, at))
  {
    NestedLess(c, d);
    AvoidsPair(c, d, at);
    WithoutPair(c, d);
    hide Less, LessEq, Comparable, Avoids, AvoidsOne, Without;
  }

  lemma {:induction false} AndPairGe(r: Role, c: Const, d: Const, at: Place)
    ensures Nested(c, d, at) ==> (PairRight(And, r, c, Ge, d, at) <==> !Errs(And, r, c, Ge, d, at))
    ensures Nested(d, c, at) ==> (PairRight(And, r, c, Ge, d, at) <==> !Errs(And, Ge, d, r, c, at))
  {
    NestedLess(c, d);
    AvoidsPair(c, d, at);
    WithoutPair(c, d);
    hide Less, LessEq, Comparable, Avoids, AvoidsOne, Without;
  }

  lemma {:induction false} AndPairEq(r: Role, c: Const, d: Const, at: Place)
    ensures Nested(c, d, at) ==> (PairRight(And, r, c, Eq, d, at) <==> !Errs(And, r, c, Eq, d, at))
    ensures Nested(d, c, at) ==> (PairRight(And, r, c, Eq, d, at) <==> !Errs(And, Eq, d, r, c, at))
  {
    NestedLess(c, d);
    AvoidsPair(c, d, at);
    WithoutPair(c, d);
    hide Less, LessEq, Comparable, Avoids, AvoidsOne, Without;
  }

  lemma {:induction false} AndPairNe(r: Role, c: Const, d: Const, at: Place)
    ensures Nested(c, d, at) ==> (PairRight(And, r, c, Ne, d, at) <==> !Errs(And, r, c, Ne, d, at))
    ensures Nested(d, c, at) ==> (PairRight(And, r, c, Ne, d, at) <==> !Errs(And, Ne, d, r, c, at))
  {
    NestedLess(c, d);
    AvoidsPair(c, d, at);
    NeOne(One(r, c), d);
    hide Less, LessEq, Comparable, Avoids, AvoidsOne, AndNe;
  }

  lemma {:induction false} AndPairs(r: Role, c: Const, q: Role, d: Const, at: Place)
    ensures Nested(c, d, at) ==> (PairRight(And, r, c, q, d, at) <==> !Errs(And, r, c, q, d, at))
    ensures Nested(d, c, at) ==> (PairRight(And, r, c, q, d, at) <==> !Errs(And, q, d, r, c, at))
  {
    hide PairRight, Errs, Nested;
    match q
    case Lt => AndPairLt(r, c, d, at);
    case Le => AndPairLe(r, c, d, at);
    case Gt => AndPairGt(r, c, d, at);
    case Ge => AndPairGe(r, c, d, at);
    case Eq => AndPairEq(r, c, d, at);
    case Ne => AndPairNe(r, c, d, at);
  }

  lemma {:induction false} OrPairLt(r: Role, c: Const, d: Const, at: Place)
    ensures Nested(c, d, at) ==> (PairRight(Or, r, c, Lt, d, at) <==> !Errs(Or, r, c, Lt, d, at))
    ensures Nested(d, c, at) ==> (PairRight(Or, r, c, Lt, d, at) <==> !Errs(Or, Lt, d, r, c, at))
  {
    NestedLess(c, d);
    AvoidsPair(c, d, at);
    hide Less, LessEq, Comparable, Avoids, AvoidsOne;
  }

  lemma {:induction false} OrPairLe(r: Role, c: Const, d: Const, at: Place)
    ensures Nested(c, d, at) ==> (PairRight(Or, r, c, Le, d, at) <==> !Errs(Or, r, c, Le, d, at))
    ensures Nested(d, c, at) ==> (PairRight(Or, r, c, Le, d, at) <==> !Errs(Or, Le, d, r, c, at))
  {
    NestedLess(c, d);
    AvoidsPair(c, d, at);
    hide Less, LessEq, Comparable, Avoids, AvoidsOne;
  }

  lemma {:induction false} OrPairGt(r: Role, c: Const, d: Const, at: Place)
    ensures Nested(c, d, at) ==> (PairRight(Or, r, c, Gt, d, at) <==> !Errs(Or, r, c, Gt, d, at))
    ensures Nested(d, c, at) ==> (PairRight(Or, r, c, Gt, d, at) <==> !Errs(Or, Gt, d, r, c, at))
  {
    NestedLess(c, d);
    AvoidsPair(c, d, at);
    hide Less, LessEq, Comparable, Avoids, AvoidsOne;
  }

  lemma {:induction false} OrPairGe(r: Role, c: Const, d: Const, at: Place)
    ensures Nested(c, d, at) ==> (PairRight(Or, r, c, Ge, d, at) <==> !Errs(Or, r, c, Ge, d, at))
    ensures Nested(d, c, at) ==> (PairRight(Or, r, c, Ge, d, at) <==> !Errs(Or, Ge, d, r, c, at))
  {
    NestedLess(c, d);
    AvoidsPair(c, d, at);
    hide Less, LessEq, Comparable, Avoids, AvoidsOne;
  }

  lemma {:induction false} OrPairEq(r: Role, c: Const, d: Const, at: Place)
    ensures Nested(c, d, at) ==> (PairRight(Or, r, c, Eq, d, at) <==> !Errs(Or, r, c, Eq, d, at))
    ensures Nested(d, c, at) ==> (PairRight(Or, r, c, Eq, d, at) <==> !Errs(Or, Eq, d, r, c, at))
  {
    NestedLess(c, d);
    AvoidsPair(c, d, at);
    hide Less, LessEq, Comparable, Avoids, AvoidsOne;
  }

  lemma {:induction false} OrPairNe(r: Role, c: Const, d: Const, at: Place)
    ensures Nested(c, d, at) ==> (PairRight(Or, r, c, Ne, d, at) <==> !Errs(Or, r, c, Ne, d, at))
    ensures Nested(d, c, at) ==> (PairRight(Or, r, c, Ne, d, at) <==> !Errs(Or, Ne, d, r, c, at))
  {
    NestedLess(c, d);
    AvoidsPair(c, d, at);
    hide Less, LessEq, Comparable, Avoids, AvoidsOne;
  }

  lemma {:induction false} OrPairs(r: Role, c: Const, q: Role, d: Const, at: Place)
    ensures Nested(c, d, at) ==> (PairRight(Or, r, c, q, d, at) <==> !Errs(Or, r, c, q, d, at))
    ensures Nested(d, c, at) ==> (PairRight(Or, r, c, q, d, at) <==> !Errs(Or, q, d, r, c, at))
  {
    hide PairRight, Errs, Nested;
    match q
    case Lt => OrPairLt(r, c, d, at);
    case Le => OrPairLe(r, c, d, at);
    case Gt => OrPairGt(r, c, d, at);
    case Ge => OrPairGe(r, c, d, at);
    case Eq => OrPairEq(r, c, d, at);
    case Ne => OrPairNe(r, c, d, at);
  }

  lemma {:induction false} KeyNested(c: Const, d: Const, key: seq<Byte>)
    requires |c| < |d| <= |key| && Comparable(c, d)
    ensures Nested(c, d, PlaceOf(key))
  {
    Deeper(key, c, d);
  }

  lemma {:induction false} Deeper(key: seq<Byte>, c: Const, d: Const)
    requires |c| <= |d| && Order(c, d) == 0
    ensures Order(key, c) < 0 ==> Order(key, d) < 0
    ensures Order(key, c) > 0 ==> Order(key, d) > 0
  {
    if key != [] && c != [] && key[0] == c[0] { Deeper(key[1..], c[1..], d[1..]); }
  }

  lemma {:induction false} OneTerms(r: Role, c: Const)
    ensures forall x :: Uses(One(r, c), x) <==> x == c
  {
  }

  /** Merging two leaves with one constraint each, whatever the constants: for a key as long as both the merge errs
      exactly if one constant begins the other, the key begins with it, and the shorter comparison is one that is
      misjudged there. */
  lemma {:induction false} PairIsRight(op: Op, r: Role, c: Const, q: Role, d: Const, siblings: nat, key: seq<Byte>)
    requires |c| <= |key| && |d| <= |key|
    ensures var at := PlaceOf(key);
            (MergeAdmits(op, Combine(op, One(r, c), One(q, d), siblings), at)
             <==> Joined(op, Admits(op, One(r, c), at), Admits(op, One(q, d), at)))
            <==> !(Comparable(c, d) && if |c| < |d| then Errs(op, r, c, q, d, at) else Errs(op, q, d, r, c, at))
  {
    hide PairRight, Errs, Nested, Admits, One;
    OneTerms(r, c);
    OneTerms(q, d);
    OneConstraintNormal(op, r, c);
    OneConstraintNormal(op, q, d);
    SameLength(c, d);
    NormalShaped(op, One(r, c));
    NormalShaped(op, One(q, d));
    AnySiblings(op, One(r, c), One(q, d), siblings);
    if !Comparable(c, d) {
      CombineMeans(op, One(r, c), One(q, d), siblings, key);
    } else {
      if |c| < |d| { KeyNested(c, d, key); } else { KeyNested(d, c, key); }
      AndPairs(r, c, q, d, PlaceOf(key));
      OrPairs(r, c, q, d, PlaceOf(key));
      PairIs(op, r, c, q, d, PlaceOf(key));
      NotBothNested(c, d, PlaceOf(key));
    }
  }

  lemma {:induction false} PairIs(op: Op, r: Role, c: Const, q: Role, d: Const, at: Place)
    ensures PairRight(op, r, c, q, d, at)
            <==> (MergeAdmits(op, Combine(op, One(r, c), One(q, d), 0), at)
                  <==> Joined(op, Admits(op, One(r, c), at), Admits(op, One(q, d), at)))
  {
  }

  lemma {:induction false} NotBothNested(c: Const, d: Const, at: Place)
    ensures Nested(c, d, at) ==> |c| < |d|
    ensures Nested(d, c, at) ==> |d| < |c|
  {
  }

  lemma {:induction false} AnySiblings(op: Op, a: Leaf, b: Leaf, siblings: nat)
    requires Shaped(op, a) && Shaped(op, b)
    ensures Combine(op, a, b, siblings) == Combine(op, a, b, 0)
  {
    hide OrPass, AndPass;
    if op == Or {
      OrPassesOnce(a, b, siblings);
      OrPassesOnce(a, b, 0);
    }
  }

  /** The key 'ABD' begins with 'AB' and is not below 'ABC', and the merge finds that there is no such key. */
  lemma {:induction false} PrefixCollapses()
    ensures var a := Leaf(None, None, None, None, Some([65, 66]), []);
            var b := Leaf(None, None, None, Some([65, 66, 67]), None, []);
            var at := PlaceOf([65, 66, 68]);
            Admits(And, a, at) && Admits(And, b, at) && Combine(And, a, b, 0) == Collapsed
  {
  }

  /** The key 'ABD' begins with 'AB'; after the merge with what is below 'ABC' it is not admitted any more. */
  lemma {:induction false} PrefixDropped()
    ensures var a := Leaf(None, None, None, None, Some([65, 66]), []);
            var b := Leaf(Some([65, 66, 67]), None, None, None, None, []);
            var at := PlaceOf([65, 66, 68]);
            Admits(Or, a, at) && Combine(Or, a, b, 0) == Merged(b) && !Admits(Or, b, at)
  {
  }

  // ----- a merge collapses exactly when it must -----

  /** A merge that collapses is right to: under AND no key satisfies both leaves, under OR each satisfies one
      of them. */
  lemma {:induction false} CollapseIsSound(op: Op, a: Leaf, b: Leaf, siblings: nat, key: seq<Byte>)
    requires Normal(op, a) && Normal(op, b) && Antichain(ConstsOf(a, b))
    requires forall c :: c in ConstsOf(a, b) ==> |c| <= |key|
    requires Combine(op, a, b, siblings).Collapsed?
    ensures Joined(op, Admits(op, a, PlaceOf(key)), Admits(op, b, PlaceOf(key))) <==> op == Or
  {
    CombineMeans(op, a, b, siblings, key);
  }

  /** The converse needs a place between any two constants, and keys have not got one everywhere: none lies above
      'A' and below 'B', however long it is, and the merge keeps both bounds. */
  lemma {:induction false} GapIsKept(key: seq<Byte>)
    ensures var a, b := Leaf(None, None, Some([65]), None, None, []), Leaf(Some([66]), None, None, None, None, []);
            && !(Admits(And, a, PlaceOf(key)) && Admits(And, b, PlaceOf(key)))
            && Combine(And, a, b, 0) == Merged(Leaf(Some([66]), None, Some([65]), None, None, []))
  {
    OneByte(key, 65);
    OneByte(key, 66);
  }

  lemma {:induction false} OneByte(key: seq<Byte>, b: Byte)
    ensures Order(key, [b]) > 0 <==> key != [] && key[0] > b
    ensures Order(key, [b]) < 0 <==> key != [] && key[0] < b
  {
    var c: Const := [b];
    assert c[1..] == [];
  }

  lemma {:induction false} Everywhere(cs: iset<Const>, p: real)
    ensures Placed(cs, PlaceAt(p), p)
  {
  }

  ghost function Worths(cs: seq<Const>): (r: seq<real>)
    ensures |r| == |cs| && forall i :: 0 <= i < |cs| ==> r[i] == Worth(cs[i])
  {
    if cs == [] then [] else [Worth(cs[0])] + Worths(cs[1..])
  }

  /** A place strictly between two others that avoids finitely many. */
  lemma {:induction false} Between(lo: real, hi: real, avoid: seq<real>) returns (x: real)
    requires lo < hi
    ensures lo < x < hi && x !in avoid
    decreases |avoid|
  {
    if avoid == [] {
      x := (lo + hi) / 2.0;
    } else {
      var c := avoid[0];
      x := Between(if lo < c < hi then c else lo, hi, avoid[1..]);
    }
  }

  lemma {:induction false} AvoidsWorths(ne: seq<Const>, p: real)
    requires p !in Worths(ne)
    ensures Avoids(ne, PlaceAt(p))
  {
    forall c | c in ne ensures PlaceAt(p)(c) != 0 {
      var i :| 0 <= i < |ne| && ne[i] == c;
      assert Worths(ne)[i] == Worth(c);
    }
  }

  /** A canonical AND leaf admits some place. */
  lemma {:induction false} AndLeafHasPlace(l: Leaf, cs: iset<Const>) returns (p: real)
    requires NormalAnd(l) && Ordered(cs) && From(l, cs)
    ensures Admits(And, l, PlaceAt(p))
  {
    hide Less, LessEq, Worth, Avoids;
    if l.eq.Some? {
      p := Worth(l.eq.value);
      AvoidsWorths([], p);
    } else {
      var lo := if Lower(l).Some? then Worth(Lower(l).value)
                else if Upper(l).Some? then Worth(Upper(l).value) - 1.0 else 0.0;
      var hi := if Upper(l).Some? then Worth(Upper(l).value) else lo + 1.0;
      p := Between(lo, hi, Worths(l.ne));
      AvoidsWorths(l.ne, p);
    }
  }

  /** A canonical OR leaf leaves some place out, and with no exclusion one that is not on a given constant. */
  lemma {:induction false} OrLeafMissesPlace(l: Leaf, other: Const, cs: iset<Const>) returns (p: real)
    requires NormalOr(l) && Ordered(cs) && From(l, cs)
    ensures !Admits(Or, l, PlaceAt(p))
    ensures l.ne == [] ==> p != Worth(other)
  {
    hide Less, LessEq, Worth, AvoidsOne;
    if l.ne != [] {
      assert l.ne[0] in l.ne;
      p := Worth(l.ne[0]);
      AvoidsFew(l.ne, PlaceAt(p));
    } else {
      var lo := if Upper(l).Some? then Worth(Upper(l).value)
                else if Lower(l).Some? then Worth(Lower(l).value) - 1.0 else 0.0;
      var hi := if Lower(l).Some? then Worth(Lower(l).value) else lo + 1.0;
      var eq := if l.eq.Some? then [Worth(l.eq.value)] else [];
      p := Between(lo, hi, [Worth(other)] + eq);
      assert Worth(other) in [Worth(other)] + eq && forall w :: w in eq ==> w in [Worth(other)] + eq;
      AvoidsFew(l.ne, PlaceAt(p));
    }
  }

  /** Under AND a merge collapses if and only if no place satisfies both leaves; under OR if and only if every
      place satisfies one of them. */
  lemma {:induction false} CollapseIsExact(op: Op, a: Leaf, b: Leaf, siblings: nat)
    requires Normal(op, a) && Normal(op, b) && Antichain(ConstsOf(a, b))
    ensures Combine(op, a, b, siblings).Collapsed?
            <==> forall p :: Joined(op, Admits(op, a, PlaceAt(p)), Admits(op, b, PlaceAt(p))) == (op == Or)
  {
    hide Combine, Admits, Ordered, From, Drawn, PlaceAt, Placed;
    var m, cs := Combine(op, a, b, siblings), ConstsOf(a, b);
    AntichainOrdered(cs);
    FromOwn(a, b);
    forall p
      ensures MergeAdmits(op, m, PlaceAt(p))
              <==> Joined(op, Admits(op, a, PlaceAt(p)), Admits(op, b, PlaceAt(p)))
    {
      Everywhere(cs, p);
      CombinePlaced(op, a, b, siblings, cs, PlaceAt(p), p);
    }
    Everywhere(cs, 0.0);
    CombinePlaced(op, a, b, siblings, cs, PlaceAt(0.0), 0.0);
    NormalShaped(op, a);
    NormalShaped(op, b);
    CombineShape(op, a, b, siblings);
    AnyClosed(cs);
    FromAny(a, cs);
    FromAny(b, cs);
    CombineDrawn(op, a, b, siblings, Any(cs));
    var p: real;
    match m
    case Collapsed =>
    case Merged(l) =>
      FromAny(l, cs);
      if op == And { p := AndLeafHasPlace(l, cs); } else { p := OrLeafMissesPlace(l, [], cs); }
      assert MergeAdmits(op, m, PlaceAt(p)) == Admits(op, l, PlaceAt(p));
    case Kept(l, r) =>
      FromAny(l, cs);
      p := OrLeafMissesPlace(l, r.eq.value, cs);
      PointAdmits(r, p);
      assert !MergeAdmits(op, m, PlaceAt(p));
  }

  lemma {:induction false} NormalShaped(op: Op, l: Leaf)
    requires Normal(op, l)
    ensures Shaped(op, l)
  {
  }

  lemma {:induction false} PointAdmits(l: Leaf, p: real)
    requires l.eq.Some? && Empty(l.(eq := None))
    ensures Admits(Or, l, PlaceAt(p)) <==> p == Worth(l.eq.value)
  {
    AvoidsFew(l.ne, PlaceAt(p));
  }
}
