/** The filter tree of a query as a value, and what the rewriters make of it.

    A node is a leaf, which bounds the key of one tag, or a branch, which joins its children by AND or
    OR.  `Reduce` and `Redistribute` are the specification the heap methods of `BitmapHeap` are proved
    against; the theorems here say that both keep what a tree means for every record. */
module QueryTree {
  import opened Wrappers
  import opened Bytes
  import opened Digits
  import opened Constants
  import opened Constraints

  datatype Tree = Tree(branch: bool, op: Op, tag: nat, noMatch: bool, leaf: Leaf, kids: seq<Tree>)

  const NO_TAG: nat := 0
  const NOTHING := Leaf(None, None, None, None, None, [])

  /** A freshly created branch, before any child is linked to it. */
  function Branch(op: Op, kids: seq<Tree>): Tree {
    Tree(true, op, NO_TAG, false, NOTHING, kids)
  }

  // ----- meaning -----

  /** Whether the record whose key in tag `t` is `key(t)` satisfies the tree.  A branch that has lost
      all its children has collapsed: under AND nothing matches it, under OR everything does. */
  predicate Means(t: Tree, key: nat -> seq<Byte>)
    decreases t, 0
  {
    if !t.branch then Admits(t.op, t.leaf, PlaceOf(key(t.tag)))
    else if t.kids == [] then t.op == Or
    else Fold(t.op, t.kids, key)
  }

  /** Any number of trees joined by one operator. */
  predicate Fold(op: Op, ks: seq<Tree>, key: nat -> seq<Byte>)
    decreases ks, 1
  {
    if ks == [] then op == And
    else Joined(op, Means(ks[0], key), Fold(op, ks[1..], key))
  }

  /** What is asked of the leaves: something of the operator, the tag and the constraints. */
  type Good = (Op, nat, Leaf) -> bool

  /** Every leaf is good and has no children, a branch has no constraints, the note that nothing matches is on those
      branches that have no children and nowhere else, and what has no children has a tag. */
  predicate WellFormed(t: Tree, good: Good)
    decreases t, 0
  {
    && (t.noMatch <==> t.branch && t.kids == []) && (t.kids == [] ==> t.tag != NO_TAG)
    && (if t.branch then t.leaf == NOTHING else t.kids == [] && good(t.op, t.tag, t.leaf))
    && WellFormedAll(t.kids, good)
  }

  predicate WellFormedAll(ks: seq<Tree>, good: Good)
    decreases ks, 1
  {
    ks == [] || (WellFormed(ks[0], good) && WellFormedAll(ks[1..], good))
  }

  function AnyLeaf(): Good { (op: Op, tag: nat, l: Leaf) => true }

  function NormalLeaf(): Good { (op: Op, tag: nat, l: Leaf) => Normal(op, l) }

  function ShapedLeaf(): Good { (op: Op, tag: nat, l: Leaf) => Shaped(op, l) }

  /** The constraints there may be on each tag. */
  type Stock = nat -> iset<Term>

  ghost function Fit(stock: Stock): Good { (op: Op, tag: nat, l: Leaf) => Normal(op, l) && Drawn(l, stock(tag)) }

  /** Constants begin each other only as equalities and exclusions do that may, and begin keys they are not longer
      than. */
  ghost predicate Tame(stock: Stock, key: nat -> seq<Byte>) {
    forall tag :: Closed(stock(tag)) && Clear(stock(tag)) && forall t :: t in stock(tag) ==> |t.con| <= |key(tag)|
  }

  // ----- the measure the rewriting shrinks -----

  /** How many nodes of the tree have no children. */
  function Weight(t: Tree): (w: nat)
    ensures w >= 1
    decreases t, 0
  {
    if t.kids == [] then 1 else WeightAll(t.kids)
  }

  function WeightAll(ks: seq<Tree>): (w: nat)
    ensures w >= |ks|
    decreases ks, 1
  {
    if ks == [] then 0 else Weight(ks[0]) + WeightAll(ks[1..])
  }

  function Height(t: Tree): nat
    decreases t, 0
  {
    if t.kids == [] then 0 else 1 + HeightAll(t.kids)
  }

  function HeightAll(ks: seq<Tree>): nat
    decreases ks, 1
  {
    if ks == [] then 0
    else
      var h, r := Height(ks[0]), HeightAll(ks[1..]);
      if h < r then r else h
  }

  // ----- shrinking: a branch with one child is replaced by the child -----

  /** A node and the tag of its parent, which a rewrite of the node may set. */
  datatype Spot = Spot(node: Tree, ptag: nat)

  function Adopt(tag: nat, from: nat): nat {
    if tag == NO_TAG then from else tag
  }

  function Shrink(t: Tree, ptag: nat): (r: Spot)
    ensures Weight(r.node) == Weight(t)
  {
    assert |t.kids| == 1 ==> t.kids[1..] == [] && WeightAll(t.kids) == Weight(t.kids[0]) + WeightAll(t.kids[1..]);
    if |t.kids| == 1 then Spot(t.kids[0], Adopt(ptag, t.kids[0].tag)) else Spot(t, ptag)
  }

  function Reduce(t: Tree, ptag: nat): Spot
    decreases t, 0
  {
    var ks := ReduceKids(t.kids, t.tag);
    Shrink(t.(kids := ks.kids, tag := ks.tag), ptag)
  }

  datatype Kids = Kids(kids: seq<Tree>, tag: nat)

  function ReduceKids(ks: seq<Tree>, tag: nat): (r: Kids)
    ensures |r.kids| == |ks|
    decreases ks, 1
  {
    if ks == [] then Kids([], tag)
    else
      var first := Reduce(ks[0], tag);
      var rest := ReduceKids(ks[1..], first.ptag);
      Kids([first.node] + rest.kids, rest.tag)
  }

  // ----- combining and splitting the children of one branch -----

  /** Two neighbours with other tags or other operators, or not the branch's. */
  predicate Unlike(op: Op, left: Tree, right: Tree) {
    right.tag != left.tag || right.op != left.op || op != right.op
  }

  /** Two neighbours that cannot share a branch: these, and an equality beside an exclusion that would not be
      merged rightly. */
  predicate MustSplit(op: Op, left: Tree, right: Tree) {
    Unlike(op, left, right) || KeptApart(left.leaf, right.leaf)
  }

  /** The children that stay, those moved to a second branch, and whether the branch collapsed. */
  datatype Parts = Parts(kept: seq<Tree>, moved: seq<Tree>, collapsed: bool)

  /** The left-to-right scan, `cur` being the child every next one is compared with. */
  function Scan(op: Op, cur: Tree, rest: seq<Tree>): (p: Parts)
    decreases |rest|
  {
    if rest == [] then Parts([cur], [], false)
    else
      var right := rest[0];
      if MustSplit(op, cur, right) then
        var p := Scan(op, cur, rest[1..]);
        p.(moved := [right] + p.moved)
      else if cur.branch || right.branch then
        var p := Scan(op, right, rest[1..]);
        p.(kept := [cur] + p.kept)
      else
        match Combine(op, cur.leaf, right.leaf, |rest| - 1)
        case Collapsed => Parts([], [], true)
        case Merged(l) => Scan(op, cur.(leaf := l), rest[1..])
        case Kept(l, r) =>
          var p := Scan(op, right.(leaf := r), rest[1..]);
          p.(kept := [cur.(leaf := l)] + p.kept)
  }

  /** The branch after the scan: a collapse drops every child still on it and notes that it did. */
  function Scanned(t: Tree, p: Parts): (r: Tree)
    requires t.kids != []
    ensures Weight(r) <= if p.collapsed then 1 else if p.kept == [] then 1 else WeightAll(p.kept)
  {
    if p.collapsed then t.(kids := [], noMatch := true, tag := Adopt(t.tag, t.kids[0].tag))
    else t.(kids := p.kept)
  }

  // ----- redistribution -----

  /** A redistributed node: what stands in its place, what was added at the end of the parent's
      children, and the parent's tag. */
  datatype Placed = Placed(here: Tree, added: seq<Tree>, ptag: nat)

  /** Redistribution of a child `t` of a branch with operator `pop` and tag `ptag`. */
  function Redistribute(pop: Op, ptag: nat, t: Tree, shrink: bool): (r: Placed)
    ensures Weight(r.here) + WeightAll(r.added) <= Weight(t)
    decreases Weight(t), Height(t), 0, 1
  {
    if !t.branch then Placed(t, [], ptag)
    else
      var ks := RedistributeKids(t.op, t.tag, t.kids);
      var t1 := t.(kids := ks.kids, tag := ks.tag);
      if pop != t.op then Placed(t1, [], ptag) else Settle(t1, ptag, shrink)
  }

  /** The combining half of a redistribution, once the children have been redistributed. */
  function Settle(t: Tree, ptag: nat, shrink: bool): (r: Placed)
    ensures Weight(r.here) + WeightAll(r.added) <= Weight(t)
    decreases Weight(t), 0, 0, 0
  {
    if t.kids == [] then Placed(t, [], ptag)
    else
      var p := Scan(t.op, t.kids[0], t.kids[1..]);
      ScanWeight(t.op, t.kids[0], t.kids[1..]);
      var t1 := Scanned(t, p);
      assert p.moved != [] ==> Weight(Branch(t.op, p.moved)) == WeightAll(p.moved) < Weight(t);
      var second := if p.moved == [] then Placed(t1, [], ptag)
                    else Redistribute(t.op, ptag, Branch(t.op, p.moved), true);
      var added := if p.moved == [] then [] else [second.here] + second.added;
      var s := if shrink then Shrink(t1, second.ptag) else Spot(t1, second.ptag);
      Placed(s.node, added, s.ptag)
  }

  /** Redistributes a list of siblings in order, up to and including the first that is split. */
  function RedistributeKids(op: Op, tag: nat, todo: seq<Tree>): (r: Kids)
    ensures WeightAll(r.kids) <= WeightAll(todo)
    ensures r.kids == [] <==> todo == []
    decreases WeightAll(todo), HeightAll(todo), |todo|, 0
  {
    if todo == [] then Kids([], tag)
    else
      var first := Redistribute(op, tag, todo[0], false);
      if first.added != [] then
        WeightAppend([first.here] + todo[1..], first.added);
        Kids([first.here] + todo[1..] + first.added, first.ptag)
      else
        var rest := RedistributeKids(op, first.ptag, todo[1..]);
        Kids([first.here] + rest.kids, rest.tag)
  }

  lemma {:induction false} WeightAppend(a: seq<Tree>, b: seq<Tree>)
    ensures WeightAll(a + b) == WeightAll(a) + WeightAll(b)
  {
    if a == [] {
      assert a + b == b;
    } else {
      assert (a + b)[1..] == a[1..] + b;
      WeightAppend(a[1..], b);
    }
  }

  /** Merging never adds weight, and a scan always leaves a child behind or collapses. */
  lemma {:induction false} ScanWeight(op: Op, cur: Tree, rest: seq<Tree>)
    ensures var p := Scan(op, cur, rest);
            && (p.collapsed ==> 1 + WeightAll(p.moved) <= Weight(cur) + WeightAll(rest))
            && (!p.collapsed ==> WeightAll(p.kept) + WeightAll(p.moved) <= Weight(cur) + WeightAll(rest))
            && (!p.collapsed ==> p.kept != [])
            && WeightAll(p.moved) < Weight(cur) + WeightAll(rest)
    decreases |rest|
  {
    hide Combine, MustSplit;
    if rest != [] {
      var right := rest[0];
      if MustSplit(op, cur, right) {
        ScanWeight(op, cur, rest[1..]);
      } else if cur.branch || right.branch {
        ScanWeight(op, right, rest[1..]);
      } else {
        match Combine(op, cur.leaf, right.leaf, |rest| - 1)
        case Collapsed =>
        case Merged(l) => ScanWeight(op, cur.(leaf := l), rest[1..]);
        case Kept(l, r) => ScanWeight(op, right.(leaf := r), rest[1..]);
      }
    }
  }

  // ----- redistribution keeps the meaning -----

  lemma {:induction false} FoldAppend(op: Op, a: seq<Tree>, b: seq<Tree>, key: nat -> seq<Byte>)
    ensures Fold(op, a + b, key) == Joined(op, Fold(op, a, key), Fold(op, b, key))
  {
    if a == [] {
      assert a + b == b;
    } else {
      assert (a + b)[1..] == a[1..] + b;
      FoldAppend(op, a[1..], b, key);
    }
  }

  lemma {:induction false} WellFormedAppend(a: seq<Tree>, b: seq<Tree>, good: Good)
    ensures WellFormedAll(a + b, good) <==> WellFormedAll(a, good) && WellFormedAll(b, good)
  {
    if a == [] {
      assert a + b == b;
    } else {
      assert (a + b)[1..] == a[1..] + b;
      WellFormedAppend(a[1..], b, good);
    }
  }

  lemma {:induction false} FoldOne(op: Op, t: Tree, key: nat -> seq<Byte>)
    ensures Fold(op, [t], key) == Means(t, key)
  {
  }

  lemma {:induction false} FoldCons(op: Op, t: Tree, ks: seq<Tree>, key: nat -> seq<Byte>)
    ensures Fold(op, [t] + ks, key) == Joined(op, Means(t, key), Fold(op, ks, key))
  {
    FoldAppend(op, [t], ks, key);
    FoldOne(op, t, key);
  }

  lemma {:induction false} WellFormedCons(t: Tree, ks: seq<Tree>, good: Good)
    ensures WellFormedAll([t], good) == WellFormed(t, good)
    ensures WellFormedAll([t] + ks, good) <==> WellFormed(t, good) && WellFormedAll(ks, good)
  {
    assert ([t] + ks)[1..] == ks;
  }

  lemma {:induction false} MergeMeans(op: Op, left: Tree, right: Tree, siblings: nat, key: nat -> seq<Byte>,
                                      stock: Stock)
    requires !MustSplit(op, left, right) && !left.branch && !right.branch
    requires Tame(stock, key) && WellFormed(left, Fit(stock)) && WellFormed(right, Fit(stock))
    ensures var m := Combine(op, left.leaf, right.leaf, siblings);
            var both := Joined(op, Means(left, key), Means(right, key));
            && (m.Collapsed? ==> both == (op == Or))
            && (m.Merged? ==> var l := left.(leaf := m.leaf); WellFormed(l, Fit(stock)) && Means(l, key) == both)
            && (m.Kept? ==>
                  var l, r := left.(leaf := m.left), right.(leaf := m.right);
                  && WellFormed(l, Fit(stock)) && WellFormed(r, Fit(stock))
                  && Joined(op, Means(l, key), Means(r, key)) == both)
  {
    hide Combine, Admits, NormalAnd, NormalOr, KeptApart, Closed, Clear;
    var a, b, ts := left.leaf, right.leaf, stock(left.tag);
    MergedApart(op, a, b, ts);
    ShortEnough(a, b, ts, key(left.tag));
    CombineMeans(op, a, b, siblings, key(left.tag));
    NormalShaped(op, a);
    NormalShaped(op, b);
    CombineDrawn(op, a, b, siblings, ts);
  }

  lemma {:induction false} ShortEnough(a: Leaf, b: Leaf, ts: iset<Term>, key: seq<Byte>)
    requires Drawn(a, ts) && Drawn(b, ts) && forall t :: t in ts ==> |t.con| <= |key|
    ensures forall c :: c in ConstsOf(a, b) ==> |c| <= |key|
  {
    forall c | c in ConstsOf(a, b) ensures |c| <= |key| {
      var r := RoleOf(if Uses(a, c) then a else b, c, ts);
      assert Term(r, c) in ts;
    }
  }

  lemma {:induction false} LeafTagged(t: Tree, good: Good)
    requires WellFormed(t, good) && !t.branch
    ensures t.tag != NO_TAG
  {
  }

  lemma {:induction false} OneTag(op: Op, left: Tree, right: Tree)
    requires !MustSplit(op, left, right)
    ensures left.tag == right.tag
  {
  }

  /** The scan neither adds nor loses a match: what stays and what moves join to what was scanned, and
      a collapse happens only where the joined meaning no longer depends on the record. */
  lemma {:induction false} ScanMeans(op: Op, cur: Tree, rest: seq<Tree>, key: nat -> seq<Byte>, stock: Stock)
    requires Tame(stock, key) && WellFormed(cur, Fit(stock)) && WellFormedAll(rest, Fit(stock))
    ensures var p := Scan(op, cur, rest);
            var before := Joined(op, Means(cur, key), Fold(op, rest, key));
            && WellFormedAll(p.kept, Fit(stock)) && WellFormedAll(p.moved, Fit(stock))
            && (p.collapsed ==> cur.tag != NO_TAG)
            && before == if p.collapsed then op == Or
                         else Joined(op, Fold(op, p.kept, key), Fold(op, p.moved, key))
    decreases |rest|
  {
    hide Combine, MustSplit, Means, WellFormed, Tame, Fit;
    if rest == [] {
      FoldOne(op, cur, key);
    } else {
      var right := rest[0];
      if MustSplit(op, cur, right) {
        ScanMeans(op, cur, rest[1..], key, stock);
        FoldCons(op, right, Scan(op, cur, rest[1..]).moved, key);
        WellFormedCons(right, Scan(op, cur, rest[1..]).moved, Fit(stock));
      } else if cur.branch || right.branch {
        OneTag(op, cur, right);
        ScanMeans(op, right, rest[1..], key, stock);
        FoldCons(op, cur, Scan(op, right, rest[1..]).kept, key);
        WellFormedCons(cur, Scan(op, right, rest[1..]).kept, Fit(stock));
      } else {
        MergeMeans(op, cur, right, |rest| - 1, key, stock);
        LeafTagged(cur, Fit(stock));
        match Combine(op, cur.leaf, right.leaf, |rest| - 1)
        case Collapsed =>
        case Merged(l) =>
          ScanMeans(op, cur.(leaf := l), rest[1..], key, stock);
        case Kept(l, r) =>
          var left, right1 := cur.(leaf := l), right.(leaf := r);
          ScanMeans(op, right1, rest[1..], key, stock);
          FoldCons(op, left, Scan(op, right1, rest[1..]).kept, key);
          WellFormedCons(left, Scan(op, right1, rest[1..]).kept, Fit(stock));
      }
    }
  }

  /** Redistributing a child of a branch keeps what the branch means, although siblings may have been
      added to it; those are added only where child and branch share an operator. */
  lemma {:induction false} RedistributeMeans(pop: Op, ptag: nat, t: Tree, shrink: bool, key: nat -> seq<Byte>,
                                             stock: Stock)
    requires Tame(stock, key) && WellFormed(t, Fit(stock))
    ensures var r := Redistribute(pop, ptag, t, shrink);
            && WellFormed(r.here, Fit(stock)) && WellFormedAll(r.added, Fit(stock))
            && (r.added != [] ==> pop == t.op)
            && Joined(pop, Means(r.here, key), Fold(pop, r.added, key)) == Means(t, key)
    decreases Weight(t), Height(t), 0, 1
  {
    hide Tame, Fit;
    if t.branch {
      var ks := RedistributeKids(t.op, t.tag, t.kids);
      RedistributeKidsMeans(t.op, t.tag, t.kids, key, stock);
      var t1 := t.(kids := ks.kids, tag := ks.tag);
      if pop == t.op {
        SettleMeans(t1, ptag, shrink, key, stock);
      }
    }
  }

  lemma {:induction false} ShrinkMeans(t: Tree, ptag: nat, key: nat -> seq<Byte>, good: Good)
    requires t.branch && WellFormed(t, good)
    ensures WellFormed(Shrink(t, ptag).node, good) && Means(Shrink(t, ptag).node, key) == Means(t, key)
  {
    if |t.kids| == 1 {
      assert t.kids == [t.kids[0]];
      FoldOne(t.op, t.kids[0], key);
    }
  }

  lemma {:induction false} SettleMeans(t: Tree, ptag: nat, shrink: bool, key: nat -> seq<Byte>, stock: Stock)
    requires t.branch && Tame(stock, key) && WellFormed(t, Fit(stock))
    ensures var r := Settle(t, ptag, shrink);
            && WellFormed(r.here, Fit(stock)) && WellFormedAll(r.added, Fit(stock))
            && Joined(t.op, Means(r.here, key), Fold(t.op, r.added, key)) == Means(t, key)
    decreases Weight(t), 0, 0, 0
  {
    hide Scan, Redistribute, Shrink, Admits, Fit, Tame;
    if t.kids != [] {
      var p := Scan(t.op, t.kids[0], t.kids[1..]);
      ScanWeight(t.op, t.kids[0], t.kids[1..]);
      ScanMeans(t.op, t.kids[0], t.kids[1..], key, stock);
      var t1 := Scanned(t, p);
      assert Weight(t) == Weight(t.kids[0]) + WeightAll(t.kids[1..]);
      assert Means(t1, key) == if p.collapsed then t.op == Or else Fold(t.op, p.kept, key);
      var ptag1 := ptag;
      if p.moved != [] {
        var second := Redistribute(t.op, ptag, Branch(t.op, p.moved), true);
        RedistributeMeans(t.op, ptag, Branch(t.op, p.moved), true, key, stock);
        FoldCons(t.op, second.here, second.added, key);
        WellFormedCons(second.here, second.added, Fit(stock));
        ptag1 := second.ptag;
      }
      ShrinkMeans(t1, ptag1, key, Fit(stock));
    }
  }

  lemma {:induction false} RedistributeKidsMeans(op: Op, tag: nat, todo: seq<Tree>, key: nat -> seq<Byte>, stock: Stock)
    requires Tame(stock, key) && WellFormedAll(todo, Fit(stock))
    ensures var r := RedistributeKids(op, tag, todo);
            WellFormedAll(r.kids, Fit(stock)) && Fold(op, r.kids, key) == Fold(op, todo, key)
    decreases WeightAll(todo), HeightAll(todo), |todo|, 0
  {
    hide Tame, Fit;
    if todo != [] {
      var first := Redistribute(op, tag, todo[0], false);
      RedistributeMeans(op, tag, todo[0], false, key, stock);
      FoldCons(op, first.here, todo[1..], key);
      WellFormedCons(first.here, todo[1..], Fit(stock));
      if first.added != [] {
        FoldAppend(op, [first.here] + todo[1..], first.added, key);
        WellFormedAppend([first.here] + todo[1..], first.added, Fit(stock));
      } else {
        var rest := RedistributeKids(op, first.ptag, todo[1..]);
        RedistributeKidsMeans(op, first.ptag, todo[1..], key, stock);
        FoldCons(op, first.here, rest.kids, key);
        WellFormedCons(first.here, rest.kids, Fit(stock));
      }
    }
  }

  /** Redistribution of a whole tree: with no parent to add siblings to, a new root is made. */
  function RedistributeRoot(t: Tree, shrink: bool): Tree {
    if !t.branch then t
    else
      var ks := RedistributeKids(t.op, t.tag, t.kids);
      var r := Settle(t.(kids := ks.kids, tag := ks.tag), NO_TAG, shrink);
      if r.added == [] then r.here
      else Branch(t.op, [r.here] + r.added).(tag := r.ptag)
  }

  lemma {:induction false} RootMeans(t: Tree, shrink: bool, key: nat -> seq<Byte>, stock: Stock)
    requires Tame(stock, key) && WellFormed(t, Fit(stock))
    ensures Means(RedistributeRoot(t, shrink), key) <==> Means(t, key)
    ensures WellFormed(RedistributeRoot(t, shrink), Fit(stock))
  {
    hide Settle, Admits, Fit, Tame;
    if t.branch {
      var ks := RedistributeKids(t.op, t.tag, t.kids);
      RedistributeKidsMeans(t.op, t.tag, t.kids, key, stock);
      var t1 := t.(kids := ks.kids, tag := ks.tag);
      SettleMeans(t1, NO_TAG, shrink, key, stock);
      var r := Settle(t1, NO_TAG, shrink);
      FoldCons(t.op, r.here, r.added, key);
      WellFormedCons(r.here, r.added, Fit(stock));
    }
  }

  // ----- what redistribution achieves -----

  /** Two neighbours that may stay side by side in a branch with operator `op`: they have the
      branch's operator and one tag, and they are two leaves only where OR could not merge them. */
  predicate SideBySide(op: Op, left: Tree, right: Tree) {
    && !Unlike(op, left, right)
    && (left.branch || right.branch || (op == Or && left.leaf.eq.Some?))
  }

  predicate Settled(op: Op, ks: seq<Tree>) {
    forall i {:trigger ks[i]} :: 0 <= i < |ks| - 1 ==> SideBySide(op, ks[i], ks[i + 1])
  }

  /** A branch with operator `op` whose children can neither be merged nor need to be split. */
  predicate Tidy(op: Op, t: Tree) {
    t.branch && t.op == op ==> Settled(op, t.kids)
  }

  predicate TidyAll(op: Op, ks: seq<Tree>) {
    forall i :: 0 <= i < |ks| ==> Tidy(op, ks[i])
  }

  lemma {:induction false} SettledCons(op: Op, t: Tree, ks: seq<Tree>)
    requires ks != [] && SideBySide(op, t, ks[0]) && Settled(op, ks)
    ensures Settled(op, [t] + ks)
  {
    var all := [t] + ks;
    forall i {:trigger all[i]} | 0 <= i < |all| - 1 ensures SideBySide(op, all[i], all[i + 1]) {
      if i > 0 { assert ks[i - 1] == all[i]; }
    }
  }

  /** The children a scan keeps are settled, and the first of them is the one it started from, up to
      the constraints merged into it. */
  lemma {:induction false} ScanSettles(op: Op, cur: Tree, rest: seq<Tree>)
    requires WellFormed(cur, ShapedLeaf()) && WellFormedAll(rest, ShapedLeaf())
    ensures var p := Scan(op, cur, rest);
            && WellFormedAll(p.kept, ShapedLeaf()) && WellFormedAll(p.moved, ShapedLeaf())
            && (p.collapsed ==> cur.tag != NO_TAG)
            && (!p.collapsed ==>
                  && p.kept != [] && p.kept[0] == cur.(leaf := p.kept[0].leaf)
                  && (cur.branch ==> p.kept[0] == cur)
                  && Settled(op, p.kept))
    decreases |rest|
  {
    hide Combine, KeptApart;
    if rest == [] {
      WellFormedCons(cur, [], ShapedLeaf());
    } else {
      var right := rest[0];
      if MustSplit(op, cur, right) {
        ScanSettles(op, cur, rest[1..]);
        WellFormedCons(right, Scan(op, cur, rest[1..]).moved, ShapedLeaf());
      } else if cur.branch || right.branch {
        ScanSettles(op, right, rest[1..]);
        var p := Scan(op, right, rest[1..]);
        WellFormedCons(cur, p.kept, ShapedLeaf());
        if !p.collapsed { SettledCons(op, cur, p.kept); }
      } else {
        CombineShape(op, cur.leaf, right.leaf, |rest| - 1);
        match Combine(op, cur.leaf, right.leaf, |rest| - 1)
        case Collapsed =>
        case Merged(l) =>
          ScanSettles(op, cur.(leaf := l), rest[1..]);
        case Kept(l, r) =>
          ScanSettles(op, right.(leaf := r), rest[1..]);
          var p := Scan(op, right.(leaf := r), rest[1..]);
          WellFormedCons(cur.(leaf := l), p.kept, ShapedLeaf());
          if !p.collapsed { SettledCons(op, cur.(leaf := l), p.kept); }
      }
    }
  }

  lemma {:induction false} ScannedTidy(t: Tree)
    requires t.branch && WellFormed(t, ShapedLeaf()) && t.kids != []
    ensures var p := Scan(t.op, t.kids[0], t.kids[1..]);
            && Tidy(t.op, Scanned(t, p)) && WellFormed(Scanned(t, p), ShapedLeaf())
            && WellFormedAll(p.moved, ShapedLeaf())
  {
    hide Scan, ShapedLeaf;
    ScanSettles(t.op, t.kids[0], t.kids[1..]);
  }

  /** Every node a redistribution leaves in the parent's list is tidy for the parent's operator. */
  lemma {:induction false} RedistributeTidies(pop: Op, ptag: nat, t: Tree, shrink: bool)
    requires WellFormed(t, ShapedLeaf())
    ensures var r := Redistribute(pop, ptag, t, shrink);
            && WellFormed(r.here, ShapedLeaf()) && WellFormedAll(r.added, ShapedLeaf())
            && Tidy(pop, r.here) && TidyAll(pop, r.added)
    decreases Weight(t), Height(t), 0, 1
  {
    hide Settle, RedistributeKids, ShapedLeaf;
    if t.branch {
      var ks := RedistributeKids(t.op, t.tag, t.kids);
      RedistributeKidsTidies(t.op, t.tag, t.kids);
      if pop == t.op { SettleTidies(t.(kids := ks.kids, tag := ks.tag), ptag, shrink); }
    }
  }

  lemma {:induction false} RedistributeKidsTidies(op: Op, tag: nat, todo: seq<Tree>)
    requires WellFormedAll(todo, ShapedLeaf())
    ensures var r := RedistributeKids(op, tag, todo);
            && WellFormedAll(r.kids, ShapedLeaf()) && (r.kids != [] ==> Tidy(op, r.kids[0]))
            && (r.kids == [] ==> r.tag == tag)
    decreases WeightAll(todo), HeightAll(todo), |todo|, 0
  {
    hide Redistribute, ShapedLeaf;
    if todo != [] {
      var first := Redistribute(op, tag, todo[0], false);
      RedistributeTidies(op, tag, todo[0], false);
      if first.added != [] {
        WellFormedCons(first.here, todo[1..], ShapedLeaf());
        WellFormedAppend([first.here] + todo[1..], first.added, ShapedLeaf());
      } else {
        RedistributeKidsTidies(op, first.ptag, todo[1..]);
        WellFormedCons(first.here, RedistributeKids(op, first.ptag, todo[1..]).kids, ShapedLeaf());
      }
    }
  }

  lemma {:induction false} ChildlessTidy(op: Op, t: Tree)
    requires t.kids == []
    ensures Tidy(op, t)
  {
  }

  lemma {:induction false} SettleTidies(t: Tree, ptag: nat, shrink: bool)
    requires t.branch && WellFormed(t, ShapedLeaf()) && (t.kids != [] ==> Tidy(t.op, t.kids[0]))
    ensures var r := Settle(t, ptag, shrink);
            && WellFormed(r.here, ShapedLeaf()) && WellFormedAll(r.added, ShapedLeaf())
            && Tidy(t.op, r.here) && TidyAll(t.op, r.added)
    decreases Weight(t), 0, 0, 0
  {
    hide Scan, Redistribute, Tidy, ShapedLeaf;
    if t.kids != [] {
      var p := Scan(t.op, t.kids[0], t.kids[1..]);
      ScanWeight(t.op, t.kids[0], t.kids[1..]);
      assert Weight(t) == Weight(t.kids[0]) + WeightAll(t.kids[1..]);
      ScannedTidy(t);
      ShrunkTidy(t);
      if p.moved != [] {
        var second := Redistribute(t.op, ptag, Branch(t.op, p.moved), true);
        RedistributeTidies(t.op, ptag, Branch(t.op, p.moved), true);
        WellFormedCons(second.here, second.added, ShapedLeaf());
      }
    } else {
      ChildlessTidy(t.op, t);
    }
  }

  /** The only child left by a scan is the first one, which was tidy before it. */
  lemma {:induction false} ShrunkTidy(t: Tree)
    requires t.branch && WellFormed(t, ShapedLeaf()) && t.kids != [] && Tidy(t.op, t.kids[0])
    ensures var t1 := Scanned(t, Scan(t.op, t.kids[0], t.kids[1..]));
            |t1.kids| == 1 ==> Tidy(t.op, t1.kids[0])
  {
    ScanSettles(t.op, t.kids[0], t.kids[1..]);
  }

  /** After redistribution the root, or every child of the root it had to make, is tidy; and the tree is well formed,
      so that what matches nothing is noted and what has no children has a tag. */
  lemma {:induction false} RedistributeRootTidies(t: Tree, shrink: bool)
    requires WellFormed(t, ShapedLeaf())
    ensures var r := RedistributeRoot(t, shrink);
            && WellFormed(r, ShapedLeaf())
            && (Tidy(t.op, r) || (r.branch && r.op == t.op && |r.kids| >= 2 && TidyAll(t.op, r.kids)))
  {
    hide Settle, RedistributeKids, Tidy, ShapedLeaf;
    if t.branch {
      var ks := RedistributeKids(t.op, t.tag, t.kids);
      RedistributeKidsTidies(t.op, t.tag, t.kids);
      var t1 := t.(kids := ks.kids, tag := ks.tag);
      SettleTidies(t1, NO_TAG, shrink);
      var r := Settle(t1, NO_TAG, shrink);
      WellFormedCons(r.here, r.added, ShapedLeaf());
    } else {
      ChildlessTidy(t.op, t);
    }
  }

  // ----- reduction -----

  /** No node of the tree has exactly one child. */
  predicate NoSingles(t: Tree)
    decreases t, 0
  {
    |t.kids| != 1 && NoSinglesAll(t.kids)
  }

  predicate NoSinglesAll(ks: seq<Tree>)
    decreases ks, 1
  {
    ks == [] || (NoSingles(ks[0]) && NoSinglesAll(ks[1..]))
  }

  /** The childless nodes of a tree from left to right. */
  function Fringe(t: Tree): seq<Tree>
    decreases t, 0
  {
    if t.kids == [] then [t] else FringeAll(t.kids)
  }

  function FringeAll(ks: seq<Tree>): seq<Tree>
    decreases ks, 1
  {
    if ks == [] then [] else Fringe(ks[0]) + FringeAll(ks[1..])
  }

  /** Reduction keeps the meaning and the childless nodes in order, and leaves no single child. */
  lemma {:induction false} ReduceKeeps(t: Tree, ptag: nat, key: nat -> seq<Byte>, good: Good)
    requires WellFormed(t, good)
    ensures var r := Reduce(t, ptag).node;
            && WellFormed(r, good) && Means(r, key) == Means(t, key)
            && NoSingles(r) && Fringe(r) == Fringe(t)
    decreases t, 0
  {
    hide Admits;
    ReduceKidsKeep(t.op, t.kids, t.tag, key, good);
    var ks := ReduceKids(t.kids, t.tag);
    var t1 := t.(kids := ks.kids, tag := ks.tag);
    if t.kids == [] {
      assert t1 == t;
    } else if |ks.kids| == 1 {
      assert ks.kids == [ks.kids[0]];
      FoldOne(t.op, ks.kids[0], key);
      assert FringeAll(ks.kids) == Fringe(ks.kids[0]);
    }
  }

  lemma {:induction false} ReduceKidsKeep(op: Op, ks: seq<Tree>, tag: nat, key: nat -> seq<Byte>, good: Good)
    requires WellFormedAll(ks, good)
    ensures var r := ReduceKids(ks, tag).kids;
            && WellFormedAll(r, good) && Fold(op, r, key) == Fold(op, ks, key)
            && NoSinglesAll(r) && FringeAll(r) == FringeAll(ks)
    decreases ks, 1
  {
    hide Admits;
    if ks != [] {
      var first := Reduce(ks[0], tag);
      ReduceKeeps(ks[0], tag, key, good);
      ReduceKidsKeep(op, ks[1..], first.ptag, key, good);
      var rest := ReduceKids(ks[1..], first.ptag).kids;
      assert ([first.node] + rest)[1..] == rest;
    }
  }

  /** A tree without single children is left alone, and so is the tag of its parent. */
  lemma {:induction false} ReduceIdle(t: Tree, ptag: nat)
    requires NoSingles(t)
    ensures Reduce(t, ptag) == Spot(t, ptag)
    decreases t, 0
  {
    ReduceKidsIdle(t.kids, t.tag);
  }

  lemma {:induction false} ReduceKidsIdle(ks: seq<Tree>, tag: nat)
    requires NoSinglesAll(ks)
    ensures ReduceKids(ks, tag) == Kids(ks, tag)
    decreases ks, 1
  {
    if ks != [] {
      ReduceIdle(ks[0], tag);
      ReduceKidsIdle(ks[1..], tag);
    }
  }

  /** Reducing twice is reducing once. */
  lemma {:induction false} ReduceIdempotent(t: Tree, ptag: nat, again: nat)
    requires WellFormed(t, AnyLeaf())
    ensures Reduce(Reduce(t, ptag).node, again) == Spot(Reduce(t, ptag).node, again)
  {
    ReduceKeeps(t, ptag, _ => [], AnyLeaf());
    ReduceIdle(Reduce(t, ptag).node, again);
  }

  // ----- the tags of branches -----

  /** A branch's tag, once set, is never changed by the reduction of its children; where it is set it is the tag of
      the child that was put in its place. */
  lemma {:induction false} ReduceTags(t: Tree, ptag: nat)
    ensures var r := Reduce(t, ptag);
            r.ptag != ptag ==> ptag == NO_TAG && r.ptag == r.node.tag
    ensures var r := Reduce(t, ptag);
            |t.kids| == 1 && ptag == NO_TAG ==> r.ptag == r.node.tag
  {
  }

  /** Nor is it by their redistribution: where it is set it is the tag of one of the nodes that are put there. */
  lemma {:induction false} RedistributeTags(pop: Op, ptag: nat, t: Tree, shrink: bool)
    ensures var r := Redistribute(pop, ptag, t, shrink);
            r.ptag != ptag ==> ptag == NO_TAG && exists k :: k in [r.here] + r.added && k.tag == r.ptag
    decreases Weight(t), Height(t), 0, 1
  {
    if t.branch && pop == t.op {
      var ks := RedistributeKids(t.op, t.tag, t.kids);
      SettleTags(t.(kids := ks.kids, tag := ks.tag), ptag, shrink);
    }
  }

  lemma {:induction false} SettleTags(t: Tree, ptag: nat, shrink: bool)
    ensures var r := Settle(t, ptag, shrink);
            r.ptag != ptag ==> ptag == NO_TAG && exists k :: k in [r.here] + r.added && k.tag == r.ptag
    decreases Weight(t), 0, 0, 0
  {
    if t.kids != [] {
      var p := Scan(t.op, t.kids[0], t.kids[1..]);
      ScanWeight(t.op, t.kids[0], t.kids[1..]);
      if p.moved != [] {
        assert Weight(Branch(t.op, p.moved)) == WeightAll(p.moved) < Weight(t);
        RedistributeTags(t.op, ptag, Branch(t.op, p.moved), true);
      }
    }
  }

  // ----- the constants of a whole tree -----

  ghost predicate IsTerm(u: Tree, tag: nat, x: Term) {
    !u.branch && u.tag == tag && Has(u.leaf, x)
  }

  ghost predicate HasTerm(t: Tree, tag: nat, x: Term) {
    exists u :: u in Fringe(t) && IsTerm(u, tag, x)
  }

  /** The constraints of the tree's leaves on each tag. */
  ghost function TermsOf(t: Tree): Stock {
    (tag: nat) => iset x: Term | HasTerm(t, tag, x)
  }

  /** Of the constants there are on one tag, one begins the other only where one is that of an equality and the
      other that of an exclusion; and none is longer than the keys. */
  ghost predicate Apart(t: Tree, key: nat -> seq<Byte>) {
    forall tag :: Clear(TermsOf(t)(tag)) && forall x :: x in TermsOf(t)(tag) ==> |x.con| <= |key(tag)|
  }

  ghost predicate TwoRoles(ts: iset<Term>, c: Const) {
    exists r, q :: r != q && Term(r, c) in ts && Term(q, c) in ts
  }

  /** These constraints and those that merges can make of them. */
  ghost function Closure(stock: Stock): Stock {
    (tag: nat) => iset x: Term | x in stock(tag) || TwoRoles(stock(tag), x.con)
  }

  /** A constraint that a merge made has a constant that begins no other, nor does any begin it. */
  lemma {:induction false} ClosureOf(ts: iset<Term>, x: Term, y: Term)
    requires Clear(ts)
    requires (x in ts || TwoRoles(ts, x.con)) && (y in ts || TwoRoles(ts, y.con)) && Comparable(x.con, y.con)
    ensures x in ts && y in ts
  {
    SameLength(x.con, y.con);
  }

  lemma {:induction false} ClosureTame(t: Tree, key: nat -> seq<Byte>)
    requires Apart(t, key)
    ensures Tame(Closure(TermsOf(t)), key)
  {
    hide Comparable;
    forall tag
      ensures Closed(Closure(TermsOf(t))(tag)) && Clear(Closure(TermsOf(t))(tag))
      ensures forall x :: x in Closure(TermsOf(t))(tag) ==> |x.con| <= |key(tag)|
    {
      var ts, all := TermsOf(t)(tag), Closure(TermsOf(t))(tag);
      assert Clear(ts);
      forall x, y | x in all && y in all && Comparable(x.con, y.con)
        ensures x.role in {Eq, Ne} && y.role in {Eq, Ne} && x.role != y.role
      {
        ClosureOf(ts, x, y);
      }
      forall x, y | x in all && y in all && x.con == y.con && x.role != y.role
        ensures forall r :: Term(r, x.con) in all
      {
        assert TwoRoles(ts, x.con) by {
          if x in ts && y in ts { assert Term(x.role, x.con) in ts && Term(y.role, x.con) in ts; }
        }
      }
    }
  }

  lemma {:induction false} FringeFits(t: Tree, stock: Stock)
    requires WellFormed(t, NormalLeaf())
    requires forall u, x, tag :: u in Fringe(t) && IsTerm(u, tag, x) ==> x in stock(tag)
    ensures WellFormed(t, Fit(stock))
    decreases t, 0
  {
    if t.kids != [] {
      FringeAllFits(t.kids, stock);
    } else if !t.branch {
      assert t in Fringe(t);
      LeafFits(t, stock);
    }
  }

  lemma {:induction false} LeafFits(t: Tree, stock: Stock)
    requires !t.branch && forall x, tag :: IsTerm(t, tag, x) ==> x in stock(tag)
    ensures Drawn(t.leaf, stock(t.tag))
  {
    forall x | Has(t.leaf, x) ensures x in stock(t.tag) { assert IsTerm(t, t.tag, x); }
    HasDrawn(t.leaf, stock(t.tag));
  }

  lemma {:induction false} HasDrawn(l: Leaf, ts: iset<Term>)
    requires forall x :: Has(l, x) ==> x in ts
    ensures Drawn(l, ts)
  {
    forall c | c in l.ne ensures Term(Ne, c) in ts { assert Has(l, Term(Ne, c)); }
    assert l.lt.Some? ==> Has(l, Term(Lt, l.lt.value));
    assert l.le.Some? ==> Has(l, Term(Le, l.le.value));
    assert l.gt.Some? ==> Has(l, Term(Gt, l.gt.value));
    assert l.ge.Some? ==> Has(l, Term(Ge, l.ge.value));
    assert l.eq.Some? ==> Has(l, Term(Eq, l.eq.value));
  }

  lemma {:induction false} FringeAllFits(ks: seq<Tree>, stock: Stock)
    requires WellFormedAll(ks, NormalLeaf())
    requires forall u, x, tag :: u in FringeAll(ks) && IsTerm(u, tag, x) ==> x in stock(tag)
    ensures WellFormedAll(ks, Fit(stock))
    decreases ks, 1
  {
    if ks != [] {
      assert forall u :: u in Fringe(ks[0]) || u in FringeAll(ks[1..]) ==> u in FringeAll(ks);
      FringeFits(ks[0], stock);
      FringeAllFits(ks[1..], stock);
    }
  }

  lemma {:induction false} TreeFits(t: Tree)
    requires WellFormed(t, NormalLeaf())
    ensures WellFormed(t, Fit(Closure(TermsOf(t))))
  {
    assert forall u, x, tag :: u in Fringe(t) && IsTerm(u, tag, x) ==> HasTerm(t, tag, x);
    FringeFits(t, Closure(TermsOf(t)));
  }

  /** Redistributing a whole filter tree keeps its meaning for every record. */
  lemma {:induction false} RedistributeRootMeans(t: Tree, shrink: bool, key: nat -> seq<Byte>)
    requires WellFormed(t, NormalLeaf()) && Apart(t, key)
    ensures Means(RedistributeRoot(t, shrink), key) <==> Means(t, key)
  {
    hide RedistributeRoot, Means;
    TreeFits(t);
    ClosureTame(t, key);
    RootMeans(t, shrink, key, Closure(TermsOf(t)));
  }

  // ----- both -----

  /** What a query tree becomes before its records are sought. */
  function Simplify(t: Tree): Tree {
    RedistributeRoot(Reduce(t, NO_TAG).node, true)
  }

  /** Simplifying a filter tree keeps its meaning for every record. */
  lemma {:induction false} SimplifyMeans(t: Tree, key: nat -> seq<Byte>)
    requires WellFormed(t, NormalLeaf()) && Apart(t, key)
    ensures Means(Simplify(t), key) <==> Means(t, key)
  {
    hide RedistributeRoot, Means;
    ReduceKeeps(t, NO_TAG, key, NormalLeaf());
    var r := Reduce(t, NO_TAG).node;
    assert forall tag :: TermsOf(r)(tag) == TermsOf(t)(tag);
    RedistributeRootMeans(r, true, key);
  }

  // ----- a tree that is simplified wrongly -----

  function OneLeaf(op: Op, l: Leaf): Tree {
    Tree(false, op, 1, false, l, [])
  }

  /** Of two leaves that are merged, what simplifying makes is what the scan does. */
  lemma {:induction false} TwoLeaves(op: Op, a: Leaf, b: Leaf)
    requires Combine(op, a, b, 0).Collapsed? && !KeptApart(a, b)
    ensures var r := Simplify(Branch(op, [OneLeaf(op, a), OneLeaf(op, b)])); r.branch && r.op == op && r.kids == []
  {
    hide Combine, KeptApart;
    var x, y := OneLeaf(op, a), OneLeaf(op, b);
    var t := Branch(op, [x, y]);
    assert [x, y][1..] == [y] && [y][1..] == [] && x.kids == [] == y.kids;
    assert NoSinglesAll([]) && NoSingles(x) && NoSingles(y);
    assert NoSinglesAll([y]) && NoSinglesAll([x, y]);
    ReduceIdle(t, NO_TAG);
    var ks := RedistributeKids(op, NO_TAG, [x, y]);
    assert Redistribute(op, NO_TAG, x, false) == Placed(x, [], NO_TAG);
    assert RedistributeKids(op, NO_TAG, [y]) == Kids([y], NO_TAG);
    assert ks == Kids([x, y], NO_TAG);
    assert Scan(op, x, [y]) == Parts([], [], true);
  }

  /** Records whose key begins with 'AB' and is not below 'ABC': 'ABD' is one, and none is left. */
  lemma {:induction false} PrefixLost()
    ensures var a := OneLeaf(And, Leaf(None, None, None, None, Some([65, 66]), []));
            var b := OneLeaf(And, Leaf(None, None, None, Some([65, 66, 67]), None, []));
            var key := (tag: nat) => [65, 66, 68];
            Means(Branch(And, [a, b]), key) && !Means(Simplify(Branch(And, [a, b])), key)
  {
    hide Simplify, Combine, Admits;
    var a, b := Leaf(None, None, None, None, Some([65, 66]), []), Leaf(None, None, None, Some([65, 66, 67]), None, []);
    var key := (tag: nat) => [65, 66, 68];
    PrefixCollapses();
    TwoLeaves(And, a, b);
    var x, y := OneLeaf(And, a), OneLeaf(And, b);
    FoldOne(And, y, key);
    FoldCons(And, x, [y], key);
    assert [x] + [y] == [x, y];
  }
}
