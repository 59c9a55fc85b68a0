/** The filter tree as the rewriters hold it: nodes linked through child lists that are spliced,
    extended and cut in place.

    A ghost `Shape` names the nodes of a tree and their order; `View` reads the tree of values off the
    heap.  Every rewriter is proved to leave on the heap the tree that `QueryTree` specifies, both at
    the node it is called on and in the parent's list it edits. */
module BitmapHeap {
  import opened Digits
  import opened Constraints
  import opened QueryTree

  class Bitmap {
    var branch: bool
    var op: Op
    var tag: nat
    var noMatch: bool
    var leaf: Leaf
    var children: seq<Bitmap>

    constructor (op: Op, branch: bool)
      ensures this.branch == branch && this.op == op && this.tag == NO_TAG && !this.noMatch
      ensures this.leaf == NOTHING && this.children == []
    {
      this.branch, this.op, this.tag, this.noMatch := branch, op, NO_TAG, false;
      this.leaf, this.children := NOTHING, [];
    }
  }

  // ----- linked lists -----

  function IndexOf(list: seq<Bitmap>, link: Bitmap): (i: nat)
    requires link in list
    ensures i < |list| && list[i] == link && link !in list[..i]
  {
    if list[0] == link then 0 else 1 + IndexOf(list[1..], link)
  }

  function Next(list: seq<Bitmap>, link: Bitmap): Bitmap?
    requires link in list
  {
    var i := IndexOf(list, link);
    if i + 1 < |list| then list[i + 1] else null
  }

  function AddAfter(list: seq<Bitmap>, anchor: Bitmap, item: Bitmap): seq<Bitmap>
    requires anchor in list
  {
    var i := IndexOf(list, anchor);
    list[..i + 1] + [item] + list[i + 1..]
  }

  function Remove(list: seq<Bitmap>, item: Bitmap): seq<Bitmap>
    requires item in list
  {
    var i := IndexOf(list, item);
    list[..i] + list[i + 1..]
  }

  lemma {:induction false} IndexOfAt(pre: seq<Bitmap>, link: Bitmap, post: seq<Bitmap>)
    requires link !in pre
    ensures IndexOf(pre + [link] + post, link) == |pre|
  {
    var list := pre + [link] + post;
    assert list[|pre|] == link;
    assert forall k :: 0 <= k < |pre| ==> list[k] == pre[k];
  }

  lemma {:induction false} ListEdits(pre: seq<Bitmap>, link: Bitmap, post: seq<Bitmap>, item: Bitmap)
    requires link !in pre
    ensures AddAfter(pre + [link] + post, link, item) == pre + [link, item] + post
    ensures Remove(pre + [link] + post, link) == pre + post
    ensures Next(pre + [link] + post, link) == if post == [] then null else post[0]
  {
    IndexOfAt(pre, link, post);
  }

  // ----- shapes -----

  datatype Shape = Shape(node: Bitmap, kids: seq<Shape>)

  ghost function Heads(ks: seq<Shape>): (hs: seq<Bitmap>)
    ensures |hs| == |ks|
    ensures forall i :: 0 <= i < |ks| ==> hs[i] == ks[i].node
  {
    seq(|ks|, i requires 0 <= i < |ks| => ks[i].node)
  }

  ghost function Nodes(s: Shape): set<Bitmap>
    decreases s, 0
  {
    {s.node} + NodesOf(s.kids)
  }

  ghost function NodesOf(ks: seq<Shape>): set<Bitmap>
    decreases ks, 1
  {
    if ks == [] then {} else Nodes(ks[0]) + NodesOf(ks[1..])
  }

  /** The child lists on the heap are those of the shape, and no node occurs twice. */
  ghost predicate Linked(s: Shape)
    reads Nodes(s)
    decreases s, 0
  {
    && s.node.children == Heads(s.kids)
    && s.node !in NodesOf(s.kids)
    && LinkedAll(s.kids)
  }

  ghost predicate LinkedAll(ks: seq<Shape>)
    reads NodesOf(ks)
    decreases ks, 1
  {
    ks == [] || (Linked(ks[0]) && LinkedAll(ks[1..]) && Nodes(ks[0]) !! NodesOf(ks[1..]))
  }

  ghost function View(s: Shape): Tree
    reads Nodes(s)
    decreases s, 0
  {
    Tree(s.node.branch, s.node.op, s.node.tag, s.node.noMatch, s.node.leaf, ViewAll(s.kids))
  }

  ghost function ViewAll(ks: seq<Shape>): (ts: seq<Tree>)
    reads NodesOf(ks)
    ensures |ts| == |ks|
    decreases ks, 1
  {
    if ks == [] then [] else [View(ks[0])] + ViewAll(ks[1..])
  }

  lemma {:induction false} Append(a: seq<Shape>, b: seq<Shape>)
    ensures NodesOf(a + b) == NodesOf(a) + NodesOf(b)
    ensures LinkedAll(a + b) <==> LinkedAll(a) && LinkedAll(b) && NodesOf(a) !! NodesOf(b)
    ensures ViewAll(a + b) == ViewAll(a) + ViewAll(b)
    ensures Heads(a + b) == Heads(a) + Heads(b)
  {
    hide *;
    AppendNodes(a, b);
    AppendLinked(a, b);
    AppendView(a, b);
  }

  lemma {:induction false} AppendNodes(a: seq<Shape>, b: seq<Shape>)
    ensures NodesOf(a + b) == NodesOf(a) + NodesOf(b)
    ensures Heads(a + b) == Heads(a) + Heads(b)
  {
    if a == [] {
      assert a + b == b;
    } else {
      assert (a + b)[1..] == a[1..] + b;
      AppendNodes(a[1..], b);
    }
  }

  lemma {:induction false} AppendLinked(a: seq<Shape>, b: seq<Shape>)
    ensures LinkedAll(a + b) <==> LinkedAll(a) && LinkedAll(b) && NodesOf(a) !! NodesOf(b)
  {
    hide Linked;
    if a == [] {
      assert a + b == b;
    } else {
      assert (a + b)[1..] == a[1..] + b;
      AppendLinked(a[1..], b);
      AppendNodes(a[1..], b);
    }
  }

  lemma {:induction false} AppendView(a: seq<Shape>, b: seq<Shape>)
    ensures ViewAll(a + b) == ViewAll(a) + ViewAll(b)
  {
    hide View;
    if a == [] {
      assert a + b == b;
    } else {
      assert (a + b)[1..] == a[1..] + b;
      AppendView(a[1..], b);
    }
  }

  lemma {:induction false} One(s: Shape)
    ensures NodesOf([s]) == Nodes(s)
    ensures LinkedAll([s]) <==> Linked(s)
    ensures ViewAll([s]) == [View(s)]
    ensures Heads([s]) == [s.node]
  {
  }

  lemma {:induction false} NoNodes()
    ensures NodesOf([]) == {} && ViewAll([]) == [] && LinkedAll([])
  {
  }

  lemma {:induction false} HeadIn(ks: seq<Shape>, i: nat)
    requires i < |ks|
    ensures Nodes(ks[i]) <= NodesOf(ks) && ks[i].node in NodesOf(ks)
  {
    if i > 0 { HeadIn(ks[1..], i - 1); }
  }

  lemma {:induction false} HeadsIn(ks: seq<Shape>, b: Bitmap)
    requires b in Heads(ks)
    ensures b in NodesOf(ks)
  {
    var i :| 0 <= i < |ks| && Heads(ks)[i] == b;
    HeadIn(ks, i);
  }

  // ----- shrinking -----

  /** The fields of a node other than its tag and its children. */
  twostate predicate SameKind(b: Bitmap)
    reads b
  {
    b.branch == old(b.branch) && b.op == old(b.op) && b.noMatch == old(b.noMatch) && b.leaf == old(b.leaf)
  }

  function TagOf(parent: Bitmap?): nat
    reads parent
  {
    if parent == null then NO_TAG else parent.tag
  }

  /** Puts `item` in the place of `link` in the list of `parent`. */
  method Supplant(parent: Bitmap, link: Bitmap, item: Bitmap, ghost pre: seq<Bitmap>, ghost post: seq<Bitmap>)
    requires parent.children == pre + [link] + post && link !in pre
    modifies parent`children
    ensures parent.children == pre + [item] + post
  {
    ListEdits(pre, link, post, item);
    parent.children := AddAfter(parent.children, link, item);
    ListEdits(pre, link, [item] + post, item);
    assert pre + [link, item] + post == pre + [link] + ([item] + post);
    parent.children := Remove(parent.children, link);
    assert parent.children == pre + [item] + post;
  }

  lemma {:induction false} OnlyKid(s: Shape)
    requires Linked(s) && |s.kids| == 1
    ensures s.kids[0].node == s.node.children[0]
    ensures Linked(s.kids[0]) && s.node !in Nodes(s.kids[0]) && Nodes(s.kids[0]) <= Nodes(s)
    ensures View(s).kids == [View(s.kids[0])]
  {
    assert s.kids == [s.kids[0]];
    One(s.kids[0]);
  }

  /** Replaces a branch that has one child by that child, in the parent's list if there is a parent. */
  method Shrink(parent: Bitmap?, bm: Bitmap, ghost s: Shape, ghost pre: seq<Bitmap>, ghost post: seq<Bitmap>)
    returns (r: Bitmap, ghost s1: Shape)
    requires s.node == bm && Linked(s)
    requires parent != null ==>
               parent !in Nodes(s) && parent.children == pre + [bm] + post && bm !in pre
    modifies parent, bm
    ensures r == s1.node && Linked(s1) && Nodes(s1) <= Nodes(s)
    ensures View(s1) == QueryTree.Shrink(old(View(s)), old(TagOf(parent))).node
    ensures parent != null ==>
              && parent.children == pre + [r] + post
              && parent.tag == QueryTree.Shrink(old(View(s)), old(parent.tag)).ptag
              && SameKind(parent)
  {
    r, s1 := bm, s;
    if |bm.children| == 1 {
      OnlyKid(s);
      assert allocated(Nodes(s.kids[0]));
      var child := bm.children[0];
      ghost var kid := s.kids[0];
      hide AddAfter, Remove, IndexOf;
      bm.children := Remove(bm.children, child);
      if parent != null {
        if parent.tag == NO_TAG && child.tag != NO_TAG {
          parent.tag := child.tag;
        }
        Supplant(parent, bm, child, pre, post);
      }
      r, s1 := child, kid;
    }
  }

  // ----- reduction -----

  /** `bm` is a child of `parent`, between `pre` and `post`, and roots the tree `s`. */
  ghost predicate Child(parent: Bitmap?, bm: Bitmap, s: Shape, pre: seq<Bitmap>, post: seq<Bitmap>)
    reads parent, Nodes(s)
  {
    && s.node == bm && Linked(s)
    && (parent != null ==>
          && parent !in Nodes(s) && parent.children == pre + [bm] + post
          && forall b :: b in pre + post ==> b !in Nodes(s))
  }

  /** Midway through the children of `bm`: `done` stand rewritten before `todo`, `childOn`
      is next, and every node is one of `room`. */
  ghost predicate Rewritten(bm: Bitmap, room: set<Bitmap>, done: seq<Shape>, todo: seq<Shape>, childOn: Bitmap?)
    reads bm, NodesOf(done + todo)
  {
    && NodesOf(done + todo) <= room
    && bm !in NodesOf(done + todo)
    && LinkedAll(done + todo)
    && bm.children == Heads(done) + Heads(todo)
    && childOn == if todo == [] then null else todo[0].node
  }

  ghost predicate Continued(whole: Kids, done: seq<Tree>, todo: seq<Tree>, tag: nat) {
    var rest := ReduceKids(todo, tag);
    whole == Kids(done + rest.kids, rest.tag)
  }

  lemma {:induction false} Continue(whole: Kids, done: seq<Tree>, next: Tree, todo: seq<Tree>, tag: nat)
    requires Continued(whole, done, [next] + todo, tag)
    ensures Continued(whole, done + [QueryTree.Reduce(next, tag).node], todo, QueryTree.Reduce(next, tag).ptag)
  {
    assert ([next] + todo)[1..] == todo;
    assert ReduceKids([next] + todo, tag).kids
        == [QueryTree.Reduce(next, tag).node] + ReduceKids(todo, QueryTree.Reduce(next, tag).ptag).kids;
  }

  lemma {:induction false} HeadsApart(ks: seq<Shape>, fp: set<Bitmap>)
    requires NodesOf(ks) !! fp
    ensures forall b :: b in Heads(ks) ==> b !in fp
  {
    forall b | b in Heads(ks) ensures b !in fp { HeadsIn(ks, b); }
  }

  /** Singles out the next child. */
  lemma {:induction false} Focus(bm: Bitmap, room: set<Bitmap>, done: seq<Shape>, kid: Shape, rest: seq<Shape>,
                                 childOn: Bitmap?)
    requires Rewritten(bm, room, done, [kid] + rest, childOn)
    ensures childOn == kid.node && Child(bm, kid.node, kid, Heads(done), Heads(rest))
    ensures LinkedAll(done) && LinkedAll(rest)
    ensures NodesOf(done) !! Nodes(kid) !! NodesOf(rest)
    ensures bm !in NodesOf(done) && bm !in Nodes(kid) && bm !in NodesOf(rest)
    ensures NodesOf(done) + Nodes(kid) + NodesOf(rest) <= room
    ensures ViewAll([kid] + rest) == [View(kid)] + ViewAll(rest)
  {
    hide NodesOf, LinkedAll, Linked, ViewAll;
    Append(done, [kid] + rest);
    Append([kid], rest);
    One(kid);
    HeadsApart(done, Nodes(kid));
    HeadsApart(rest, Nodes(kid));
    assert Heads(done) + [kid.node] + Heads(rest) == bm.children;
  }

  lemma {:induction false} Regroup(done: seq<Shape>, kid: Shape, rest: seq<Shape>)
    ensures NodesOf(done + [kid] + rest) == NodesOf(done) + Nodes(kid) + NodesOf(rest)
    ensures LinkedAll(done + [kid] + rest) <==>
              && LinkedAll(done) && Linked(kid) && LinkedAll(rest)
              && NodesOf(done) !! Nodes(kid) !! NodesOf(rest)
    ensures Heads(done + [kid] + rest) == Heads(done) + [kid.node] + Heads(rest)
    ensures Heads(done + [kid]) == Heads(done) + [kid.node]
    ensures ViewAll(done + [kid]) == ViewAll(done) + [View(kid)]
  {
    hide Nodes, NodesOf, LinkedAll, Linked, View, ViewAll, Heads;
    Append(done, [kid]);
    One(kid);
    Append(done + [kid], rest);
  }

  /** Moves on once that child has been rewritten. */
  lemma {:induction false} Advance(bm: Bitmap, room: set<Bitmap>, done: seq<Shape>, kid1: Shape, rest: seq<Shape>)
    requires bm.children == Heads(done) + [kid1.node] + Heads(rest)
    requires LinkedAll(done) && Linked(kid1) && LinkedAll(rest)
    requires NodesOf(done) !! Nodes(kid1) !! NodesOf(rest)
    requires bm !in NodesOf(done) && bm !in Nodes(kid1) && bm !in NodesOf(rest)
    requires NodesOf(done) + Nodes(kid1) + NodesOf(rest) <= room
    ensures kid1.node in bm.children && Rewritten(bm, room, done + [kid1], rest, Next(bm.children, kid1.node))
    ensures Next(bm.children, kid1.node) == null <==> rest == []
    ensures ViewAll(done + [kid1]) == ViewAll(done) + [View(kid1)]
  {
    hide NodesOf, LinkedAll, Linked, View, ViewAll, Next, IndexOf, AddAfter, Remove;
    Regroup(done, kid1, rest);
    HeadsApart(done, {kid1.node});
    ListEdits(Heads(done), kid1.node, Heads(rest), kid1.node);
  }

  lemma {:induction false} NothingLeft(whole: Kids, done: seq<Tree>, tag: nat)
    requires Continued(whole, done, [], tag)
    ensures whole == Kids(done, tag)
  {
  }

  lemma {:induction false} InShape(s: Shape)
    ensures Nodes(s) == {s.node} + NodesOf(s.kids)
  {
  }

  lemma {:induction false} StartChildren(bm: Bitmap, s: Shape)
    requires bm == s.node && Linked(s)
    ensures |bm.children| == |s.kids| && s.kids[0..] == s.kids
    ensures Rewritten(bm, NodesOf(s.kids), [], s.kids[0..], if |bm.children| == 0 then null else bm.children[0])
    ensures Continued(ReduceKids(View(s).kids, bm.tag), [], ViewAll(s.kids[0..]), bm.tag)
    ensures Resumed(bm.op, RedistributeKids(bm.op, bm.tag, View(s).kids), [], ViewAll(s.kids[0..]), bm.tag)
  {
    assert [] + s.kids[0..] == s.kids;
  }

  lemma {:induction false} EndChildren(bm: Bitmap, room: set<Bitmap>, done: seq<Shape>)
    requires Rewritten(bm, room, done, [], null)
    ensures Linked(Shape(bm, done)) && Nodes(Shape(bm, done)) <= {bm} + room
    ensures done + [] == done
  {
    assert done + [] == done;
  }

  /** The loop of a reduction: every child of `bm` is reduced in its place. */
  method ReduceChildren(bm: Bitmap, ghost s: Shape) returns (ghost s1: Shape)
    requires s.node == bm && Linked(s)
    modifies Nodes(s)
    ensures s1.node == bm && Linked(s1) && Nodes(s1) <= Nodes(s)
    ensures ReduceKids(old(View(s)).kids, old(bm.tag)) == Kids(ViewAll(s1.kids), bm.tag)
    ensures SameKind(bm)
    decreases s, 0
  {
    hide Nodes, NodesOf, Linked, LinkedAll, View, ViewAll, Heads, Continued, Rewritten;
    hide IndexOf, Next, QueryTree.Reduce, ReduceKids;
    assert allocated(Nodes(s));
    ghost var whole := ReduceKids(View(s).kids, bm.tag);
    ghost var done: seq<Shape>, i := [], 0;
    StartChildren(bm, s);
    var childOn := if |bm.children| == 0 then null else bm.children[0];
    while childOn != null
      invariant 0 <= i <= |s.kids|
      invariant childOn == null <==> i == |s.kids|
      invariant Rewritten(bm, NodesOf(s.kids), done, s.kids[i..], childOn)
      invariant SameKind(bm)
      invariant Continued(whole, ViewAll(done), ViewAll(s.kids[i..]), bm.tag)
      decreases |s.kids| - i
    {
      ghost var kid, rest := s.kids[i], s.kids[i + 1..];
      assert s.kids[i..] == [kid] + rest;
      Focus(bm, NodesOf(s.kids), done, kid, rest, childOn);
      InShape(s);
      Continue(whole, ViewAll(done), View(kid), ViewAll(rest), bm.tag);
      assert allocated(NodesOf(done)) && allocated(NodesOf(rest));
      ghost var kid1;
      childOn, kid1 := Reduce(bm, childOn, kid, Heads(done), Heads(rest));
      Advance(bm, NodesOf(s.kids), done, kid1, rest);
      childOn := Next(bm.children, childOn);
      done := done + [kid1];
      i := i + 1;
    }
    EndChildren(bm, NodesOf(s.kids), done);
    InShape(s);
    NothingLeft(whole, ViewAll(done), bm.tag);
    s1 := Shape(bm, done);
  }

  /** Removes every branch with a single child below `bm`, and then `bm` itself if it is one. */
  method Reduce(parent: Bitmap?, bm: Bitmap, ghost s: Shape, ghost pre: seq<Bitmap>, ghost post: seq<Bitmap>)
    returns (r: Bitmap, ghost s1: Shape)
    requires Child(parent, bm, s, pre, post)
    modifies parent, Nodes(s)
    ensures r == s1.node && Linked(s1) && Nodes(s1) <= Nodes(s)
    ensures View(s1) == QueryTree.Reduce(old(View(s)), old(TagOf(parent))).node
    ensures parent != null ==>
              && parent.children == pre + [r] + post
              && parent.tag == QueryTree.Reduce(old(View(s)), old(parent.tag)).ptag
              && SameKind(parent)
    decreases s, 1
  {
    hide ReduceKids, QueryTree.Shrink, LinkedAll, NodesOf;
    assert allocated(Nodes(s));
    s1 := ReduceChildren(bm, s);
    r, s1 := Shrink(parent, bm, s1, pre, post);
  }

  // ----- merging two leaves of one branch -----

  predicate Distinct(list: seq<Bitmap>) {
    forall i, j :: 0 <= i < j < |list| ==> list[i] != list[j]
  }

  /** Removes every child of a branch whose outcome no longer depends on the record. */
  method Collapse(bm: Bitmap)
    requires bm.children != []
    modifies bm
    ensures bm.children == [] && bm.noMatch
    ensures bm.tag == Adopt(old(bm.tag), old(bm.children[0].tag))
    ensures bm.branch == old(bm.branch) && bm.op == old(bm.op) && bm.leaf == old(bm.leaf)
  {
    var childOn: Bitmap? := bm.children[0];
    if bm.tag == NO_TAG && childOn.tag != NO_TAG {
      bm.tag := childOn.tag;
    }
    while childOn != null
      invariant childOn == if bm.children == [] then null else bm.children[0]
      invariant bm.tag == Adopt(old(bm.tag), old(bm.children[0].tag)) && SameKind(bm)
      decreases |bm.children|
    {
      var childNext := Next(bm.children, childOn);
      bm.children := Remove(bm.children, childOn);
      childOn := childNext;
    }
    bm.noMatch := true;
  }

  /** Merges two neighbouring leaves of `bm`; answers the leaf to go on from, or null after a collapse. */
  method CombineLeafs(bm: Bitmap, left: Bitmap, right: Bitmap, ghost pre: seq<Bitmap>, ghost post: seq<Bitmap>)
    returns (r: Bitmap?)
    requires bm.children == pre + [left, right] + post && Distinct(bm.children)
    requires bm != left && bm != right
    modifies bm, left`leaf, right`leaf
    ensures match Combine(old(bm.op), old(left.leaf), old(right.leaf), |post|)
            case Collapsed =>
              && r == null && bm.children == [] && bm.noMatch
              && bm.tag == Adopt(old(bm.tag), old(bm.children[0].tag))
              && bm.branch == old(bm.branch) && bm.op == old(bm.op) && bm.leaf == old(bm.leaf)
            case Merged(l) =>
              && r == left && left.leaf == l && bm.children == pre + [left] + post
              && bm.tag == old(bm.tag) && SameKind(bm)
            case Kept(l1, l2) =>
              && r == right && left.leaf == l1 && right.leaf == l2 && bm.children == old(bm.children)
              && bm.tag == old(bm.tag) && SameKind(bm)
  {
    hide AndPass, OrPass, IndexOf, Remove, AddAfter;
    Neighbours(pre, left, right, post);
    if bm.op == And {
      var step := AndPass(left.leaf, right.leaf);
      if step.Stop? {
        Collapse(bm);
        return null;
      }
      left.leaf, right.leaf := step.a, step.b;
      bm.children := Remove(bm.children, right);
      return left;
    }
    ghost var total := OrPasses(left.leaf, right.leaf, |post|);
    ghost var j := |pre| + 1;
    var childOn: Bitmap? := right;
    while childOn != null
      invariant bm.children == old(bm.children) && bm.tag == old(bm.tag) && SameKind(bm)
      invariant |pre| < j <= |bm.children|
      invariant childOn == if j < |bm.children| then bm.children[j] else null
      invariant total == if childOn == null then Go(left.leaf, right.leaf)
                         else OrPasses(left.leaf, right.leaf, |bm.children| - 1 - j)
      decreases |bm.children| - j
    {
      var step := OrPass(left.leaf, right.leaf);
      if step.Stop? {
        Collapse(bm);
        return null;
      }
      left.leaf, right.leaf := step.a, step.b;
      NextAt(bm.children, j);
      childOn := Next(bm.children, childOn);
      j := j + 1;
    }
    if !Empty(right.leaf) {
      return right;
    }
    bm.children := Remove(bm.children, right);
    return left;
  }

  lemma {:induction false} Neighbours(pre: seq<Bitmap>, left: Bitmap, right: Bitmap, post: seq<Bitmap>)
    requires Distinct(pre + [left, right] + post)
    ensures left != right && Remove(pre + [left, right] + post, right) == pre + [left] + post
  {
    var list := pre + [left, right] + post;
    assert list == (pre + [left]) + [right] + post;
    assert forall k :: 0 <= k < |pre| + 1 ==> list[k] == (pre + [left])[k] && list[k] != list[|pre| + 1];
    assert list[|pre|] == left && list[|pre| + 1] == right;
    ListEdits(pre + [left], right, post, right);
  }

  lemma {:induction false} NextAt(list: seq<Bitmap>, j: nat)
    requires Distinct(list) && j < |list|
    ensures Next(list, list[j]) == if j + 1 < |list| then list[j + 1] else null
  {
    assert IndexOf(list, list[j]) == j;
  }

  // ----- scanning the children of one branch -----

  /** Midway through a scan of `bm`: `done` precede `cur`, `rest` follow it, `moved` have left. */
  ghost predicate Scanning(bm: Bitmap, room: set<Bitmap>, done: seq<Shape>, cur: Shape, rest: seq<Shape>,
                           moved: seq<Shape>)
    reads bm, NodesOf(done), Nodes(cur), NodesOf(rest), NodesOf(moved)
  {
    && bm.children == Heads(done) + [cur.node] + Heads(rest)
    && LinkedAll(done) && Linked(cur) && LinkedAll(rest) && LinkedAll(moved)
    && NodesOf(done) !! Nodes(cur) !! NodesOf(rest) !! NodesOf(moved)
    && NodesOf(done) + Nodes(cur) + NodesOf(rest) + NodesOf(moved) <= room
    && bm !in room
  }

  /** What a scan so far and the rest of it make together. */
  function Prefix(done: seq<Tree>, moved: seq<Tree>, p: Parts): Parts {
    Parts(done + p.kept, moved + p.moved, p.collapsed)
  }

  lemma {:induction false} SplitStep(op: Op, done: seq<Tree>, moved: seq<Tree>, cur: Tree, right: Tree, rest: seq<Tree>)
    requires MustSplit(op, cur, right)
    ensures Prefix(done, moved, Scan(op, cur, [right] + rest)) == Prefix(done, moved + [right], Scan(op, cur, rest))
  {
    hide MustSplit, Combine;
    var all := [right] + rest;
    assert all[0] == right && all[1..] == rest;
    var p := Scan(op, cur, rest);
    assert moved + ([right] + p.moved) == moved + [right] + p.moved;
  }

  lemma {:induction false} SkipStep(op: Op, done: seq<Tree>, moved: seq<Tree>, cur: Tree, right: Tree, rest: seq<Tree>)
    requires !MustSplit(op, cur, right) && (cur.branch || right.branch)
    ensures Prefix(done, moved, Scan(op, cur, [right] + rest)) == Prefix(done + [cur], moved, Scan(op, right, rest))
  {
    hide MustSplit, Combine;
    var all := [right] + rest;
    assert all[0] == right && all[1..] == rest;
    var p := Scan(op, right, rest);
    assert done + ([cur] + p.kept) == done + [cur] + p.kept;
  }

  lemma {:induction false} MergeStep(op: Op, done: seq<Tree>, moved: seq<Tree>, cur: Tree, right: Tree, rest: seq<Tree>)
    requires !MustSplit(op, cur, right) && !cur.branch && !right.branch
    ensures var m := Combine(op, cur.leaf, right.leaf, |rest|);
            var whole := Prefix(done, moved, Scan(op, cur, [right] + rest));
            && (m.Collapsed? ==> whole.collapsed && whole.moved == moved)
            && (m.Merged? ==> whole == Prefix(done, moved, Scan(op, cur.(leaf := m.leaf), rest)))
            && (m.Kept? ==> whole == Prefix(done + [cur.(leaf := m.left)], moved,
                                             Scan(op, right.(leaf := m.right), rest)))
  {
    hide MustSplit, Combine;
    var all := [right] + rest;
    assert all[0] == right && all[1..] == rest;
    var m := Combine(op, cur.leaf, right.leaf, |rest|);
    if m.Kept? {
      var p := Scan(op, right.(leaf := m.right), rest);
      assert done + ([cur.(leaf := m.left)] + p.kept) == done + [cur.(leaf := m.left)] + p.kept;
    }
  }

  /** What has become of the parent and the second branch once `moved` children have been split off. */
  ghost predicate Opened(parent: Bitmap?, bm: Bitmap, op: Op, parent1: Bitmap?, parent2: Bitmap?,
                         pre: seq<Bitmap>, post: seq<Bitmap>, moved: seq<Shape>)
    reads parent1, parent2
  {
    if moved == [] then
      parent1 == parent && parent2 == null && (parent != null ==> parent.children == pre + [bm] + post)
    else
      && parent1 != null && parent2 != null && parent1 != parent2
      && (parent != null ==> parent1 == parent)
      && parent1.children == pre + [bm] + post + [parent2]
      && parent2.children == Heads(moved)
      && Blank(parent2, op)
      && (parent == null ==> Blank(parent1, op) && parent1.tag == NO_TAG)
      && parent2.tag == NO_TAG
  }

  /** The fields of a branch as `Bitmap` creates it, apart from its tag and its children. */
  ghost predicate Blank(b: Bitmap, op: Op)
    reads b
  {
    b.branch && b.op == op && !b.noMatch && b.leaf == NOTHING
  }

  function Just(b: Bitmap?): set<Bitmap> {
    if b == null then {} else {b}
  }

  /** Moves the child `right` of `bm` to the second branch, which is created beside `bm` if there is
      none yet, under a new parent if `bm` has none. */
  method Split(bm: Bitmap, parent: Bitmap?, parent2: Bitmap?, right: Bitmap,
               ghost parent0: Bitmap?, ghost pre: seq<Bitmap>, ghost post: seq<Bitmap>, ghost moved: seq<Shape>,
               ghost front: seq<Bitmap>, ghost back: seq<Bitmap>, ghost s: Shape)
    returns (p1: Bitmap, p2: Bitmap)
    requires Opened(parent0, bm, bm.op, parent, parent2, pre, post, moved)
    requires parent0 == null ==> pre == [] && post == []
    requires bm.children == front + [right] + back && right !in front
    requires bm != parent && bm != parent2 && s.node == right
    modifies bm`children, Just(parent)`children, Just(parent2)`children
    ensures Opened(parent0, bm, bm.op, p1, p2, pre, post, moved + [s])
    ensures parent != null ==> p1 == parent
    ensures parent == null ==> fresh(p1)
    ensures parent2 != null ==> p2 == parent2
    ensures parent2 == null ==> fresh(p2)
    ensures bm.children == front + back
  {
    hide IndexOf, AddAfter, Remove, Next;
    if parent2 == null {
      p2 := new Bitmap(bm.op, true);
      if parent == null {
        p1 := new Bitmap(bm.op, true);
        p1.children := p1.children + [bm];
      } else {
        p1 := parent;
      }
      p1.children := p1.children + [p2];
    } else {
      p1, p2 := parent, parent2;
    }
    ListEdits(front, right, back, right);
    bm.children := Remove(bm.children, right);
    p2.children := p2.children + [right];
    assert Heads(moved + [s]) == Heads(moved) + [right];
  }

  lemma {:induction false} HeadsDistinct(ks: seq<Shape>)
    requires LinkedAll(ks)
    ensures Distinct(Heads(ks))
  {
    if ks != [] {
      HeadsDistinct(ks[1..]);
      HeadsApart(ks[1..], Nodes(ks[0]));
      var hs := Heads(ks);
      forall i, j | 0 <= i < j < |hs| ensures hs[i] != hs[j] {
        assert hs[j] == Heads(ks[1..])[j - 1];
        if i > 0 { assert hs[i] == Heads(ks[1..])[i - 1]; }
      }
    }
  }

  lemma {:induction false} NextChild(bm: Bitmap, room: set<Bitmap>, done: seq<Shape>, cur: Shape, rest: seq<Shape>,
                                     moved: seq<Shape>)
    requires Scanning(bm, room, done, cur, rest, moved)
    ensures cur.node in bm.children
    ensures Next(bm.children, cur.node) == if rest == [] then null else rest[0].node
  {
    hide NodesOf, Nodes, LinkedAll, Linked, Next, IndexOf, Remove, AddAfter;
    InShape(cur);
    HeadsApart(done, Nodes(cur));
    ListEdits(Heads(done), cur.node, Heads(rest), cur.node);
  }

  /** Singles out the child to the right of the current one. */
  lemma {:induction false} FocusRight(bm: Bitmap, room: set<Bitmap>, done: seq<Shape>, cur: Shape, right: Shape,
                                      rest: seq<Shape>,
                   moved: seq<Shape>)
    requires Scanning(bm, room, done, cur, [right] + rest, moved)
    ensures bm.children == Heads(done) + [cur.node, right.node] + Heads(rest)
    ensures bm.children == (Heads(done) + [cur.node]) + [right.node] + Heads(rest)
    ensures right.node !in Heads(done) + [cur.node] && Distinct(bm.children)
    ensures LinkedAll(done) && Linked(cur) && Linked(right) && LinkedAll(rest) && LinkedAll(moved)
    ensures NodesOf(done) !! Nodes(cur) !! Nodes(right) !! NodesOf(rest) !! NodesOf(moved)
    ensures NodesOf(done) + Nodes(cur) + Nodes(right) + NodesOf(rest) + NodesOf(moved) <= room
    ensures bm !in room && cur.node in Nodes(cur) && right.node in Nodes(right)
    ensures ViewAll([right] + rest) == [View(right)] + ViewAll(rest)
  {
    hide NodesOf, Nodes, LinkedAll, Linked, View, ViewAll, Next, IndexOf, Remove, AddAfter;
    InShape(cur);
    InShape(right);
    Append([right], rest);
    One(right);
    HeadsApart(done, Nodes(right));
    Regroup(done, cur, [right] + rest);
    HeadsDistinct(done + [cur] + ([right] + rest));
  }

  /** The scan when the right neighbour becomes the current child. */
  lemma {:induction false} Step(bm: Bitmap, room: set<Bitmap>, done: seq<Shape>, cur: Shape, right: Shape,
                                rest: seq<Shape>,
             moved: seq<Shape>)
    requires Scanning(bm, room, done, cur, [right] + rest, moved)
    ensures Scanning(bm, room, done + [cur], right, rest, moved)
    ensures ViewAll(done + [cur]) == ViewAll(done) + [View(cur)]
    ensures Heads(done + [cur]) == Heads(done) + [cur.node]
  {
    hide NodesOf, Nodes, LinkedAll, Linked, View, ViewAll, Distinct;
    FocusRight(bm, room, done, cur, right, rest, moved);
    Append(done, [cur]);
    One(cur);
  }

  /** The scan once the right neighbour has gone to the second branch. */
  lemma {:induction false} Moved(bm: Bitmap, room: set<Bitmap>, done: seq<Shape>, cur: Shape, right: Shape,
                                 rest: seq<Shape>,
              moved: seq<Shape>)
    requires bm.children == Heads(done) + [cur.node] + Heads(rest)
    requires LinkedAll(done) && Linked(cur) && Linked(right) && LinkedAll(rest) && LinkedAll(moved)
    requires NodesOf(done) !! Nodes(cur) !! Nodes(right) !! NodesOf(rest) !! NodesOf(moved)
    requires NodesOf(done) + Nodes(cur) + Nodes(right) + NodesOf(rest) + NodesOf(moved) <= room
    requires bm !in room
    ensures Scanning(bm, room, done, cur, rest, moved + [right])
    ensures ViewAll(moved + [right]) == ViewAll(moved) + [View(right)]
  {
    hide NodesOf, Nodes, LinkedAll, Linked, View, ViewAll;
    Append(moved, [right]);
    One(right);
  }

  lemma {:induction false} Untangled(s: Shape)
    requires Linked(s)
    ensures s.node !in NodesOf(s.kids) && allocated(NodesOf(s.kids))
    ensures s.node.children == Heads(s.kids) && LinkedAll(s.kids)
    ensures View(s) == Tree(s.node.branch, s.node.op, s.node.tag, s.node.noMatch, s.node.leaf, ViewAll(s.kids))
  {
  }

  /** The converse, from which a node that was changed is read again. */
  lemma {:induction false} Reread(s: Shape)
    requires s.node.children == Heads(s.kids) && s.node !in NodesOf(s.kids) && LinkedAll(s.kids)
    ensures Linked(s)
    ensures View(s) == Tree(s.node.branch, s.node.op, s.node.tag, s.node.noMatch, s.node.leaf, ViewAll(s.kids))
  {
  }

  /** Merges the current child with its right neighbour, two leaves; answers the child to go on from. */
  method MergeRight(bm: Bitmap, child: Bitmap, rightChild: Bitmap, ghost room: set<Bitmap>, ghost done: seq<Shape>,
                    ghost cur: Shape, ghost right: Shape,
                    ghost rest: seq<Shape>, ghost moved: seq<Shape>, ghost whole: Parts)
    returns (r: Bitmap?, ghost done1: seq<Shape>, ghost cur1: Shape)
    requires child == cur.node && rightChild == right.node
    requires Scanning(bm, room, done, cur, [right] + rest, moved)
    requires !MustSplit(bm.op, View(cur), View(right)) && !View(cur).branch && !View(right).branch
    requires whole == Prefix(ViewAll(done), ViewAll(moved), Scan(bm.op, View(cur), ViewAll([right] + rest)))
    modifies bm, child, rightChild
    ensures bm.branch == old(bm.branch) && bm.op == old(bm.op) && bm.leaf == old(bm.leaf)
    ensures r == null ==>
              && whole.collapsed && whole.moved == old(ViewAll(moved)) && bm.children == [] && bm.noMatch
              && bm.tag == Adopt(old(bm.tag), old(bm.children[0].tag))
    ensures r != null ==>
              && r == cur1.node && bm.tag == old(bm.tag) && SameKind(bm)
              && Scanning(bm, room, done1, cur1, rest, moved)
              && whole == Prefix(ViewAll(done1), ViewAll(moved), Scan(bm.op, View(cur1), ViewAll(rest)))
              && bm.children[0].tag == old(bm.children[0].tag)
  {
    hide NodesOf, Nodes, LinkedAll, Linked, View, ViewAll, Distinct, Combine, Scan, MustSplit;
    FocusRight(bm, room, done, cur, right, rest, moved);
    MergeStep(bm.op, ViewAll(done), ViewAll(moved), View(cur), View(right), ViewAll(rest));
    Untangled(cur);
    Untangled(right);
    InShape(cur);
    InShape(right);
    assert allocated(NodesOf(done)) && allocated(NodesOf(rest)) && allocated(NodesOf(moved));
    r := CombineLeafs(bm, child, rightChild, Heads(done), Heads(rest));
    done1, cur1 := done, cur;
    if r != null {
      Reread(cur);
      Reread(right);
      if r == rightChild {
        assert Scanning(bm, room, done, cur, [right] + rest, moved) by {
          Regain(bm, room, done, cur, right, rest, moved);
        }
        Step(bm, room, done, cur, right, rest, moved);
        done1, cur1 := done + [cur], right;
      }
    }
  }

  lemma {:induction false} Regain(bm: Bitmap, room: set<Bitmap>, done: seq<Shape>, cur: Shape, right: Shape,
                                  rest: seq<Shape>,
               moved: seq<Shape>)
    requires bm.children == Heads(done) + [cur.node, right.node] + Heads(rest)
    requires LinkedAll(done) && Linked(cur) && Linked(right) && LinkedAll(rest) && LinkedAll(moved)
    requires NodesOf(done) !! Nodes(cur) !! Nodes(right) !! NodesOf(rest) !! NodesOf(moved)
    requires NodesOf(done) + Nodes(cur) + Nodes(right) + NodesOf(rest) + NodesOf(moved) <= room
    requires bm !in room
    ensures Scanning(bm, room, done, cur, [right] + rest, moved)
  {
    hide NodesOf, Nodes, LinkedAll, Linked, Heads;
    Append([right], rest);
    One(right);
    assert Heads(done) + [cur.node, right.node] + Heads(rest) == Heads(done) + [cur.node] + Heads([right] + rest);
  }

  /** What a scan of the children makes of the branch `t`. */
  function Swept(t: Tree): Parts {
    if t.kids == [] then Parts([], [], false) else Scan(t.op, t.kids[0], t.kids[1..])
  }

  function SweptTree(t: Tree): Tree {
    if t.kids == [] then t else Scanned(t, Swept(t))
  }

  lemma {:induction false} StartScan(bm: Bitmap, s: Shape)
    requires bm == s.node && Linked(s) && s.kids != []
    ensures Scanning(bm, NodesOf(s.kids), [], s.kids[0], s.kids[1..], [])
    ensures bm.children[0] == s.kids[0].node && View(s).kids[0].tag == bm.children[0].tag
    ensures Swept(View(s)) == Prefix([], [], Scan(bm.op, View(s.kids[0]), ViewAll(s.kids[1..])))
  {
    assert s.kids == [s.kids[0]] + s.kids[1..];
    assert Heads(s.kids) == [] + [s.kids[0].node] + Heads(s.kids[1..]) by { Append([s.kids[0]], s.kids[1..]); }
    assert ViewAll(s.kids)[1..] == ViewAll(s.kids[1..]);
    var p := Scan(bm.op, View(s.kids[0]), ViewAll(s.kids[1..]));
    assert [] + p.kept == p.kept && [] + p.moved == p.moved;
  }

  /** The scan has come to the last child. */
  lemma {:induction false} EndScan(bm: Bitmap, room: set<Bitmap>, done: seq<Shape>, cur: Shape, moved: seq<Shape>)
    requires Scanning(bm, room, done, cur, [], moved)
    ensures Linked(Shape(bm, done + [cur])) && LinkedAll(moved)
    ensures Nodes(Shape(bm, done + [cur])) !! NodesOf(moved)
    ensures Nodes(Shape(bm, done + [cur])) + NodesOf(moved) <= {bm} + room
    ensures View(Shape(bm, done + [cur]))
         == Tree(bm.branch, bm.op, bm.tag, bm.noMatch, bm.leaf, ViewAll(done) + [View(cur)])
    ensures Prefix(ViewAll(done), ViewAll(moved), Scan(bm.op, View(cur), []))
         == Parts(ViewAll(done) + [View(cur)], ViewAll(moved), false)
  {
    hide View, ViewAll, Linked, LinkedAll, Nodes, NodesOf;
    Append(done, [cur]);
    One(cur);
    InShape(Shape(bm, done + [cur]));
    assert Heads(done) + [cur.node] + Heads([]) == Heads(done + [cur]);
    Reread(Shape(bm, done + [cur]));
  }

  /** A scan of the branch `t` has come to the child `at`, or has collapsed the branch. */
  ghost predicate Midway(bm: Bitmap, t: Tree, room: set<Bitmap>, at: Bitmap?, done: seq<Shape>, cur: Shape,
                         rest: seq<Shape>, moved: seq<Shape>)
    reads bm, NodesOf(done), Nodes(cur), NodesOf(rest), NodesOf(moved), bm.children
  {
    && bm.branch == t.branch && bm.op == t.op && bm.leaf == t.leaf && t.kids != [] && bm !in room
    && (at != null ==>
          && at == cur.node && bm.tag == t.tag && bm.noMatch == t.noMatch
          && Scanning(bm, room, done, cur, rest, moved)
          && Swept(t) == Prefix(ViewAll(done), ViewAll(moved), Scan(bm.op, View(cur), ViewAll(rest)))
          && bm.children[0].tag == t.kids[0].tag)
    && (at == null ==>
          && bm.noMatch && bm.children == [] && bm.tag == Adopt(t.tag, t.kids[0].tag)
          && LinkedAll(moved) && NodesOf(moved) <= room && Swept(t).collapsed && Swept(t).moved == ViewAll(moved))
  }

  lemma {:induction false} MidwayStart(bm: Bitmap, s: Shape)
    requires bm == s.node && Linked(s) && s.kids != []
    ensures bm.children != [] && Midway(bm, View(s), NodesOf(s.kids), bm.children[0], [], s.kids[0], s.kids[1..], [])
  {
    hide NodesOf, Nodes, LinkedAll, View, ViewAll, Scan;
    StartScan(bm, s);
    Untangled(s);
  }

  lemma {:induction false} MidwayNext(bm: Bitmap, t: Tree, room: set<Bitmap>, at: Bitmap, done: seq<Shape>, cur: Shape,
                                      rest: seq<Shape>, moved: seq<Shape>)
    requires Midway(bm, t, room, at, done, cur, rest, moved)
    ensures at in bm.children && at in room && bm !in room
    ensures Next(bm.children, at) == if rest == [] then null else rest[0].node
    ensures rest != [] ==> rest[0].node in room
  {
    hide NodesOf, Nodes, LinkedAll, Linked, View, ViewAll, Scan, Next, IndexOf;
    NextChild(bm, room, done, cur, rest, moved);
    InShape(cur);
    if rest != [] { HeadIn(rest, 0); }
  }

  lemma {:induction false} MidwayEnd(bm: Bitmap, t: Tree, room: set<Bitmap>, at: Bitmap, done: seq<Shape>, cur: Shape,
                                     moved: seq<Shape>)
    requires Midway(bm, t, room, at, done, cur, [], moved)
    ensures var s1 := Shape(bm, done + [cur]);
            && Linked(s1) && LinkedAll(moved)
            && Nodes(s1) !! NodesOf(moved) && Nodes(s1) + NodesOf(moved) <= {bm} + room
            && View(s1) == SweptTree(t) && ViewAll(moved) == Swept(t).moved
  {
    hide NodesOf, Nodes, LinkedAll, Linked, View, ViewAll, Scan;
    EndScan(bm, room, done, cur, moved);
  }

  lemma {:induction false} MidwayCollapsed(bm: Bitmap, t: Tree, room: set<Bitmap>, done: seq<Shape>, cur: Shape,
                                           rest: seq<Shape>, moved: seq<Shape>)
    requires Midway(bm, t, room, null, done, cur, rest, moved)
    ensures var s1 := Shape(bm, []);
            && Linked(s1) && LinkedAll(moved)
            && Nodes(s1) !! NodesOf(moved) && Nodes(s1) + NodesOf(moved) <= {bm} + room
            && View(s1) == SweptTree(t) && ViewAll(moved) == Swept(t).moved
  {
    hide Scan;
    assert NodesOf([]) == {};
  }

  /** The right neighbour of the current child goes to the second branch. */
  method SplitRight(bm: Bitmap, rightChild: Bitmap, parent1: Bitmap?, parent2: Bitmap?,
                    ghost t: Tree, ghost room: set<Bitmap>, ghost done: seq<Shape>, ghost cur: Shape,
                    ghost right: Shape,
                    ghost rest: seq<Shape>, ghost moved: seq<Shape>,
                    ghost parent: Bitmap?, ghost pre: seq<Bitmap>, ghost post: seq<Bitmap>)
    returns (p1: Bitmap, p2: Bitmap)
    requires Midway(bm, t, room, cur.node, done, cur, [right] + rest, moved) && rightChild == right.node
    requires MustSplit(bm.op, View(cur), View(right))
    requires parent == null ==> pre == [] && post == []
    requires Opened(parent, bm, t.op, parent1, parent2, pre, post, moved)
    requires parent1 !in room && parent2 !in room && bm != parent1 && bm != parent2
    modifies bm`children, Just(parent1)`children, Just(parent2)`children
    ensures Midway(bm, t, room, cur.node, done, cur, rest, moved + [right])
    ensures Opened(parent, bm, t.op, p1, p2, pre, post, moved + [right])
    ensures p1 == parent1 || (parent1 == null && fresh(p1))
    ensures p2 == parent2 || (parent2 == null && fresh(p2))
  {
    hide NodesOf, Nodes, LinkedAll, Linked, View, ViewAll, Scan, MustSplit, Distinct, Opened, Heads;
    FocusRight(bm, room, done, cur, right, rest, moved);
    assert allocated(NodesOf(done)) && allocated(Nodes(cur)) && allocated(NodesOf(rest)) && allocated(NodesOf(moved));
    assert allocated(Nodes(right));
    SplitStep(bm.op, ViewAll(done), ViewAll(moved), View(cur), View(right), ViewAll(rest));
    p1, p2 := Split(bm, parent1, parent2, rightChild, parent, pre, post, moved, Heads(done) + [cur.node], Heads(rest),
                    right);
    Moved(bm, room, done, cur, right, rest, moved);
  }

  lemma {:induction false} ReadPair(cur: Shape, right: Shape, op: Op)
    requires Linked(cur) && Linked(right)
    ensures MustSplit(op, View(cur), View(right)) <==>
              || right.node.tag != cur.node.tag || right.node.op != cur.node.op || op != right.node.op
              || KeptApart(cur.node.leaf, right.node.leaf)
    ensures View(cur).branch == cur.node.branch && View(right).branch == right.node.branch
  {
  }

  /** Whether two neighbours are kept apart for an equality of the one and an exclusion of the other. */
  method Clash(left: Bitmap, right: Bitmap) returns (split: bool)
    ensures split == KeptApart(left.leaf, right.leaf)
  {
    var eqMap, neMap;
    if left.leaf.eq.Some? && right.leaf.ne != [] {
      eqMap, neMap := left, right;
    } else if right.leaf.eq.Some? && left.leaf.ne != [] {
      eqMap, neMap := right, left;
    } else {
      return false;
    }
    var eq, i := eqMap.leaf.eq.value, 0;
    while i < |neMap.leaf.ne|
      invariant 0 <= i <= |neMap.leaf.ne|
      invariant forall j :: 0 <= j < i ==> !(|neMap.leaf.ne[j]| != |eq| && Order(eq, neMap.leaf.ne[j]) == 0)
    {
      if |neMap.leaf.ne[i]| != |eq| && Order(eq, neMap.leaf.ne[i]) == 0 {
        return true;
      }
      i := i + 1;
    }
    split := false;
  }

  /** One step of the scan: the child `at` meets its right neighbour. */
  method ScanOne(bm: Bitmap, at: Bitmap, rightChild: Bitmap, parent1: Bitmap?, parent2: Bitmap?,
                 ghost t: Tree, ghost room: set<Bitmap>, ghost done: seq<Shape>, ghost cur: Shape, ghost right: Shape,
                 ghost rest: seq<Shape>, ghost moved: seq<Shape>,
                 ghost parent: Bitmap?, ghost pre: seq<Bitmap>, ghost post: seq<Bitmap>)
    returns (next: Bitmap?, p1: Bitmap?, p2: Bitmap?, ghost done1: seq<Shape>, ghost cur1: Shape,
             ghost moved1: seq<Shape>)
    requires Midway(bm, t, room, at, done, cur, [right] + rest, moved) && rightChild == right.node
    requires parent == null ==> pre == [] && post == []
    requires Opened(parent, bm, t.op, parent1, parent2, pre, post, moved)
    requires parent1 !in room && parent2 !in room && bm != parent1 && bm != parent2
    modifies bm, at, rightChild, Just(parent1)`children, Just(parent2)`children
    ensures Midway(bm, t, room, next, done1, cur1, rest, moved1)
    ensures Opened(parent, bm, t.op, p1, p2, pre, post, moved1)
    ensures p1 == parent1 || (parent1 == null && fresh(p1))
    ensures p2 == parent2 || (parent2 == null && fresh(p2))
  {
    hide NodesOf, Nodes, LinkedAll, Linked, View, ViewAll, Scan, MustSplit, Combine, Distinct, Heads, KeptApart;
    FocusRight(bm, room, done, cur, right, rest, moved);
    ReadPair(cur, right, bm.op);
    assert parent1 != at && parent1 != rightChild && parent2 != at && parent2 != rightChild;
    next, p1, p2, done1, cur1, moved1 := at, parent1, parent2, done, cur, moved;
    var split := rightChild.tag != at.tag || rightChild.op != at.op || bm.op != rightChild.op;
    if !split {
      split := Clash(at, rightChild);
    }
    if split {
      p1, p2 := SplitRight(bm, rightChild, parent1, parent2, t, room, done, cur, right, rest, moved, parent, pre, post);
      moved1 := moved + [right];
    } else if at.branch || rightChild.branch {
      SkipStep(bm.op, ViewAll(done), ViewAll(moved), View(cur), View(right), ViewAll(rest));
      Step(bm, room, done, cur, right, rest, moved);
      next, done1, cur1 := rightChild, done + [cur], right;
    } else {
      assert allocated(NodesOf(moved));
      next, done1, cur1 := MergeRight(bm, at, rightChild, room, done, cur, right, rest, moved, Swept(t));
    }
  }

  /** The left-to-right scan of the children of `bm`, merging leaves and splitting off what cannot stay. */
  method ScanChildren(parent: Bitmap?, bm: Bitmap, ghost s: Shape, ghost pre: seq<Bitmap>, ghost post: seq<Bitmap>)
    returns (parent1: Bitmap?, parent2: Bitmap?, ghost s1: Shape, ghost moved: seq<Shape>)
    requires Child(parent, bm, s, pre, post)
    requires parent == null ==> pre == [] && post == []
    modifies Just(parent)`children, Nodes(s)
    ensures s1.node == bm && Linked(s1) && LinkedAll(moved)
    ensures Nodes(s1) !! NodesOf(moved) && Nodes(s1) + NodesOf(moved) <= Nodes(s)
    ensures View(s1) == SweptTree(old(View(s)))
    ensures ViewAll(moved) == Swept(old(View(s))).moved
    ensures Opened(parent, bm, old(bm.op), parent1, parent2, pre, post, moved)
    ensures parent == null && parent1 != null ==> fresh(parent1)
    ensures parent2 != null ==> fresh(parent2)
  {
    hide NodesOf, Nodes, LinkedAll, Linked, View, ViewAll, Scan, MustSplit, Combine, Next, IndexOf;
    hide Remove, AddAfter, Midway;
    parent1, parent2, s1, moved := parent, null, s, [];
    InShape(s);
    Untangled(s);
    if |bm.children| == 0 {
      assert NodesOf([]) == {} && ViewAll([]) == [] by { NoNodes(); }
      return;
    }
    ghost var room, t := NodesOf(s.kids), View(s);
    ghost var done, cur, rest := [], s.kids[0], s.kids[1..];
    MidwayStart(bm, s);
    var childMap: Bitmap? := bm.children[0];
    while childMap != null
      invariant Midway(bm, t, room, childMap, done, cur, rest, moved)
      invariant Opened(parent, bm, t.op, parent1, parent2, pre, post, moved)
      invariant parent1 == parent || (parent == null && fresh(parent1))
      invariant parent2 == null || fresh(parent2)
      decreases |rest|, childMap != null
    {
      MidwayNext(bm, t, room, childMap, done, cur, rest, moved);
      var rightChild := Next(bm.children, childMap);
      if rightChild == null {
        MidwayEnd(bm, t, room, childMap, done, cur, moved);
        s1 := Shape(bm, done + [cur]);
        return;
      }
      ghost var right, rest1 := rest[0], rest[1..];
      assert rest == [right] + rest1;
      childMap, parent1, parent2, done, cur, moved :=
        ScanOne(bm, childMap, rightChild, parent1, parent2, t, room, done, cur, right, rest1, moved, parent, pre, post);
      rest := rest1;
    }
    MidwayCollapsed(bm, t, room, done, cur, rest, moved);
    s1 := Shape(bm, []);
  }

  // ----- redistribution -----

  ghost predicate Resumed(op: Op, whole: Kids, done: seq<Tree>, todo: seq<Tree>, tag: nat) {
    var rest := RedistributeKids(op, tag, todo);
    whole == Kids(done + rest.kids, rest.tag)
  }

  lemma {:induction false} KidsStep(op: Op, tag: nat, next: Tree, todo: seq<Tree>)
    ensures var p := QueryTree.Redistribute(op, tag, next, false);
            var rest := RedistributeKids(op, p.ptag, todo);
            RedistributeKids(op, tag, [next] + todo) == if p.added != [] then Kids([p.here] + todo + p.added, p.ptag)
                                                        else Kids([p.here] + rest.kids, rest.tag)
  {
    hide QueryTree.Redistribute, Weight, WeightAll, Height, HeightAll;
    assert ([next] + todo)[1..] == todo;
  }

  /** Going on from a child that was redistributed without being split. */
  lemma {:induction false} Resume(op: Op, whole: Kids, done: seq<Tree>, next: Tree, todo: seq<Tree>, tag: nat)
    requires Resumed(op, whole, done, [next] + todo, tag)
    ensures var p := QueryTree.Redistribute(op, tag, next, false);
            if p.added == [] then Resumed(op, whole, done + [p.here], todo, p.ptag)
            else whole == Kids(done + [p.here] + todo + p.added, p.ptag)
  {
    hide QueryTree.Redistribute, RedistributeKids;
    KidsStep(op, tag, next, todo);
    var p := QueryTree.Redistribute(op, tag, next, false);
    assert done + ([p.here] + todo + p.added) == done + [p.here] + todo + p.added;
    var rest := RedistributeKids(op, p.ptag, todo).kids;
    assert done + ([p.here] + rest) == done + [p.here] + rest;
  }

  lemma {:induction false} Finished(op: Op, whole: Kids, done: seq<Tree>, tag: nat)
    ensures Resumed(op, whole, done, [], tag) <==> whole == Kids(done, tag)
  {
  }

  /** Some of the children of `t`, which weigh no more than `t` and are less high. */
  ghost predicate Within(ts: seq<Tree>, t: Tree) {
    ts == [] || (WeightAll(ts) <= Weight(t) && HeightAll(ts) < Height(t))
  }

  lemma {:induction false} NothingWithin(t: Tree)
    ensures Within([], t)
  {
  }

  lemma {:induction false} Lighter(kid: Tree, ts: seq<Tree>, t: Tree)
    requires Within([kid] + ts, t)
    ensures Weight(kid) <= Weight(t) && Height(kid) < Height(t) && Within(ts, t)
  {
    assert ([kid] + ts)[1..] == ts;
  }

  /** A split has put `added` behind the siblings, and the last of them ends the list. */
  lemma {:induction false} LastAdded(bm: Bitmap, room: set<Bitmap>, done: seq<Shape>, here: Shape, rest: seq<Shape>,
                                     added: seq<Shape>)
    requires added != []
    requires bm.children == Heads(done) + [here.node] + Heads(rest) + Heads(added)
    requires LinkedAll(done) && Linked(here) && LinkedAll(rest) && LinkedAll(added)
    requires NodesOf(done) !! Nodes(here) !! NodesOf(rest) !! NodesOf(added)
    requires bm !in room && NodesOf(done) + Nodes(here) + NodesOf(rest) + NodesOf(added) <= room
    ensures Rewritten(bm, room, done + [here] + rest + added, [], null)
    ensures ViewAll(done + [here] + rest + added) == ViewAll(done) + [View(here)] + ViewAll(rest) + ViewAll(added)
    ensures added[|added| - 1].node in bm.children && Next(bm.children, added[|added| - 1].node) == null
  {
    hide Nodes, NodesOf, LinkedAll, Linked, View, ViewAll, Next, Heads, IndexOf;
    Regroup(done, here, rest);
    Append(done + [here], rest);
    Append(done + [here] + rest, added);
    var all := done + [here] + rest + added;
    assert all + [] == all;
    HeadsDistinct(all);
    NextAt(bm.children, |bm.children| - 1);
  }

  /** The last node of a child and the siblings it was split into. */
  ghost function LastOf(here: Shape, added: seq<Shape>): Bitmap {
    if added == [] then here.node else added[|added| - 1].node
  }

  /** What stands on the heap after a node was redistributed: `here` in its place, `added` behind. */
  ghost predicate Stands(here: Shape, added: seq<Shape>, tree: Tree, trees: seq<Tree>)
    reads Nodes(here), NodesOf(added)
  {
    && Linked(here) && LinkedAll(added) && Nodes(here) !! NodesOf(added)
    && View(here) == tree && ViewAll(added) == trees
  }

  /** The second branch, of the children moved out of `bm`, as the scan leaves it. */
  lemma {:induction false} SecondBranch(parent2: Bitmap, op: Op, moved: seq<Shape>)
    requires Blank(parent2, op) && parent2.tag == NO_TAG && parent2.children == Heads(moved)
    requires LinkedAll(moved) && parent2 !in NodesOf(moved)
    ensures Linked(Shape(parent2, moved)) && View(Shape(parent2, moved)) == Branch(op, ViewAll(moved))
    ensures Nodes(Shape(parent2, moved)) == {parent2} + NodesOf(moved)
  {
  }

  lemma {:induction false} SecondLighter(t: Tree)
    ensures Weight(Branch(t.op, Swept(t).moved)) <= Weight(t)
    ensures Swept(t).moved != [] ==> Weight(Branch(t.op, Swept(t).moved)) < Weight(t)
  {
    if t.kids != [] {
      ScanWeight(t.op, t.kids[0], t.kids[1..]);
      assert WeightAll(t.kids) == Weight(t.kids[0]) + WeightAll(t.kids[1..]);
    }
  }

  /** The specification of the combining half, in terms of the scan. */
  lemma {:induction false} SettleSteps(t: Tree, ptag: nat, shrink: bool)
    ensures var p := Swept(t);
            var second := QueryTree.Redistribute(t.op, ptag, Branch(t.op, p.moved), true);
            var added := if p.moved == [] then [] else [second.here] + second.added;
            var ptag1 := if p.moved == [] then ptag else second.ptag;
            var s := if shrink then QueryTree.Shrink(SweptTree(t), ptag1) else Spot(SweptTree(t), ptag1);
            QueryTree.Settle(t, ptag, shrink) == Placed(s.node, added, s.ptag)
  {
    hide QueryTree.Redistribute, Scan;
  }

  /** Redistributes the second branch, the last child of the parent. */
  method Spread(parent1: Bitmap, parent2: Bitmap, ghost front: seq<Bitmap>, ghost moved: seq<Shape>)
    returns (r: Bitmap, ghost added: seq<Shape>)
    requires Blank(parent2, parent1.op) && parent2.tag == NO_TAG && parent2.children == Heads(moved)
    requires LinkedAll(moved) && parent2 !in NodesOf(moved)
    requires parent1.children == front + [parent2] && parent1 != parent2 && parent1 !in NodesOf(moved)
    requires forall b :: b in front ==> b !in NodesOf(moved) && b != parent2
    modifies parent1, parent2, NodesOf(moved)
    ensures added != [] && r == added[|added| - 1].node && LinkedAll(added)
    ensures fresh(NodesOf(added) - NodesOf(moved) - {parent2})
    ensures var p := QueryTree.Redistribute(old(parent1.op), old(parent1.tag),
                                            Branch(old(parent1.op), old(ViewAll(moved))), true);
            ViewAll(added) == [p.here] + p.added && parent1.tag == p.ptag
    ensures parent1.children == front + Heads(added) && SameKind(parent1)
    decreases Weight(Branch(parent1.op, ViewAll(moved))), Height(Branch(parent1.op, ViewAll(moved))), 4
  {
    hide Nodes, NodesOf, Linked, LinkedAll, View, ViewAll, QueryTree.Redistribute, Heads;
    ghost var second, rest := Shape(parent2, moved), [];
    SecondBranch(parent2, parent1.op, moved);
    assert front + [parent2] + [] == front + [parent2];
    r, second, rest := Redistribute(parent1, parent2, true, second, front, []);
    OneMore(second, rest);
    added := [second] + rest;
    assert front + [second.node] + [] + Heads(rest) == front + Heads(added);
  }

  /** Merges and splits the children of `bm`, then redistributes the second branch. */
  method Gather(parent: Bitmap?, bm: Bitmap, ghost s: Shape, ghost pre: seq<Bitmap>, ghost post: seq<Bitmap>)
    returns (r: Bitmap?, p1: Bitmap?, ghost s1: Shape, ghost added: seq<Shape>)
    requires Child(parent, bm, s, pre, post)
    requires parent == null ==> pre == [] && post == []
    requires parent != null ==> parent.op == bm.op
    modifies Just(parent), Nodes(s)
    ensures s1.node == bm && Nodes(s1) <= Nodes(s)
    ensures var t := old(View(s));
            var second := QueryTree.Redistribute(t.op, old(TagOf(parent)), Branch(t.op, Swept(t).moved), true);
            && Stands(s1, added, SweptTree(t), if Swept(t).moved == [] then [] else [second.here] + second.added)
            && (p1 != null ==> p1.tag == if Swept(t).moved == [] then old(TagOf(parent)) else second.ptag)
    ensures fresh(NodesOf(added) - Nodes(s)) && r == if added == [] then null else added[|added| - 1].node
    ensures p1 == parent || (parent == null && fresh(p1) && added != [] && Blank(p1, old(bm.op)))
    ensures if p1 == null then added == []
            else p1.children == pre + [bm] + post + Heads(added) && p1 !in Nodes(s1) + NodesOf(added)
    ensures parent != null ==> SameKind(parent)
    decreases Weight(View(s)), 0, 0
  {
    hide Nodes, NodesOf, Linked, LinkedAll, View, ViewAll, QueryTree.Redistribute, Scan, Swept, SweptTree, Heads;
    ghost var t := View(s);
    Untangled(s);
    InShape(s);
    NoNodes();
    assert allocated(Nodes(s));
    ghost var moved;
    var parent2;
    p1, parent2, s1, moved := ScanChildren(parent, bm, s, pre, post);
    r, added := null, [];
    InShape(s1);
    assert allocated(Nodes(s1));
    if p1 != null && parent2 != null {
      SecondLighter(t);
      label spread:
      r, added := Spread(p1, parent2, pre + [bm] + post, moved);
      forall b | b in NodesOf(added) && b !in Nodes(s) ensures fresh(b) {
        assert b == parent2 || b in NodesOf(added) - NodesOf(moved) - {parent2};
        assert b == parent2 || !old@spread(allocated(b));
      }
    }
  }

  /** The combining half of a redistribution. */
  method Settle(parent: Bitmap?, bm: Bitmap, doShrink: bool, ghost s: Shape, ghost pre: seq<Bitmap>,
                ghost post: seq<Bitmap>)
    returns (r: Bitmap, p1: Bitmap?, ghost here: Shape, ghost added: seq<Shape>)
    requires Child(parent, bm, s, pre, post) && bm.branch
    requires parent == null ==> pre == [] && post == []
    requires parent != null ==> parent.op == bm.op
    modifies Just(parent), Nodes(s)
    ensures var p := QueryTree.Settle(old(View(s)), old(TagOf(parent)), doShrink);
            Stands(here, added, p.here, p.added) && (p1 != null ==> p1.tag == p.ptag)
    ensures fresh(Nodes(here) + NodesOf(added) - Nodes(s)) && r == LastOf(here, added)
    ensures p1 == parent || (parent == null && fresh(p1) && added != [] && Blank(p1, old(bm.op)))
    ensures if p1 == null then added == []
            else p1.children == pre + [here.node] + post + Heads(added) && p1 !in Nodes(here) + NodesOf(added)
    ensures parent != null ==> SameKind(parent)
    decreases Weight(View(s)), 0, 1
  {
    hide Nodes, NodesOf, Linked, LinkedAll, View, ViewAll, QueryTree.Settle, QueryTree.Redistribute, Scan, Swept;
    hide SweptTree;
    hide Heads, QueryTree.Shrink;
    SettleSteps(View(s), TagOf(parent), doShrink);
    Untangled(s);
    var second;
    ghost var s1;
    second, p1, s1, added := Gather(parent, bm, s, pre, post);
    r, here := bm, s1;
    InShape(s1);
    assert allocated(NodesOf(added));
    if doShrink {
      assert pre + [bm] + post + Heads(added) == pre + [bm] + (post + Heads(added));
      r, here := Shrink(p1, bm, s1, pre, post + Heads(added));
    }
    if second != null {
      r := second;
    }
  }

  lemma {:induction false} OneMore(s: Shape, ks: seq<Shape>)
    ensures NodesOf([s] + ks) == Nodes(s) + NodesOf(ks)
    ensures LinkedAll([s] + ks) <==> Linked(s) && LinkedAll(ks) && Nodes(s) !! NodesOf(ks)
    ensures ViewAll([s] + ks) == [View(s)] + ViewAll(ks)
    ensures Heads([s] + ks) == [s.node] + Heads(ks)
    ensures LastOf(s, ks) == ([s] + ks)[|ks|].node
  {
    Append([s], ks);
    One(s);
  }

  /** Midway through the redistribution of the children of `bm`, which is to end in `whole`. */
  ghost predicate Ongoing(bm: Bitmap, whole: Kids, room: set<Bitmap>, done: seq<Shape>, todo: seq<Shape>,
                          childOn: Bitmap?)
    reads bm, NodesOf(done + todo), NodesOf(done), NodesOf(todo)
  {
    && Rewritten(bm, room, done, todo, childOn) && bm !in room
    && Resumed(bm.op, whole, ViewAll(done), ViewAll(todo), bm.tag)
  }

  lemma {:induction false} StartOngoing(bm: Bitmap, s: Shape)
    requires bm == s.node && Linked(s)
    ensures |bm.children| == |s.kids| && Within(ViewAll(s.kids), View(s))
    ensures Ongoing(bm, RedistributeKids(bm.op, bm.tag, View(s).kids), NodesOf(s.kids), [], s.kids,
                    if |bm.children| == 0 then null else bm.children[0])
  {
    StartChildren(bm, s);
  }

  lemma {:induction false} EndOngoing(bm: Bitmap, whole: Kids, room: set<Bitmap>, done: seq<Shape>)
    requires Ongoing(bm, whole, room, done, [], null)
    ensures Linked(Shape(bm, done)) && Nodes(Shape(bm, done)) <= {bm} + room && whole == Kids(ViewAll(done), bm.tag)
  {
    EndChildren(bm, room, done);
    Finished(bm.op, whole, ViewAll(done), bm.tag);
  }

  /** Redistributes the next child of `bm`; a split ends the walk, since what it added comes last. */
  method RedistributeChild(bm: Bitmap, childOn: Bitmap, ghost whole: Kids, ghost room: set<Bitmap>,
                           ghost done: seq<Shape>, ghost kid: Shape, ghost rest: seq<Shape>)
    returns (next: Bitmap?, ghost room1: set<Bitmap>, ghost done1: seq<Shape>, ghost todo1: seq<Shape>)
    requires Ongoing(bm, whole, room, done, [kid] + rest, childOn)
    modifies bm, Nodes(kid)
    ensures Ongoing(bm, whole, room1, done1, todo1, next) && (next == null <==> todo1 == [])
    ensures todo1 == [] || (todo1 == rest && ViewAll(rest) == old(ViewAll(rest)))
    ensures fresh(room1 - room) && SameKind(bm)
    decreases Weight(View(kid)), Height(View(kid)), 4
  {
    hide Nodes, NodesOf, Linked, LinkedAll, View, ViewAll, Heads, Resumed, Rewritten;
    hide IndexOf, Next, QueryTree.Redistribute, RedistributeKids;
    Focus(bm, room, done, kid, rest, childOn);
    Resume(bm.op, whole, ViewAll(done), View(kid), ViewAll(rest), bm.tag);
    assert allocated(NodesOf(done)) && allocated(NodesOf(rest));
    ghost var here, added;
    next, here, added := Redistribute(bm, childOn, false, kid, Heads(done), Heads(rest));
    room1 := room + Nodes(here) + NodesOf(added);
    if added == [] {
      Advance(bm, room1, done, here, rest);
      done1, todo1 := done + [here], rest;
    } else {
      LastAdded(bm, room1, done, here, rest, added);
      done1, todo1 := done + [here] + rest + added, [];
      Finished(bm.op, whole, ViewAll(done1), bm.tag);
    }
    next := Next(bm.children, next);
  }

  /** Redistributes every child of `bm` in turn, up to the first that is split. */
  method RedistributeChildren(bm: Bitmap, ghost s: Shape) returns (ghost s1: Shape)
    requires s.node == bm && Linked(s)
    modifies Nodes(s)
    ensures s1.node == bm && Linked(s1) && fresh(Nodes(s1) - Nodes(s))
    ensures RedistributeKids(old(View(s)).op, old(bm.tag), old(View(s)).kids) == Kids(ViewAll(s1.kids), bm.tag)
    ensures SameKind(bm)
    decreases Weight(View(s)), Height(View(s)), 1
  {
    hide Nodes, NodesOf, Linked, LinkedAll, View, ViewAll, Heads, Resumed, Rewritten;
    hide IndexOf, Next, QueryTree.Redistribute, RedistributeKids, Within, Ongoing;
    Untangled(s);
    InShape(s);
    assert allocated(Nodes(s));
    ghost var t := View(s);
    ghost var whole := RedistributeKids(bm.op, bm.tag, t.kids);
    ghost var done: seq<Shape>, room, todo := [], NodesOf(s.kids), s.kids;
    StartOngoing(bm, s);
    var childOn := if |bm.children| == 0 then null else bm.children[0];
    while childOn != null
      invariant Ongoing(bm, whole, room, done, todo, childOn) && (childOn == null <==> todo == [])
      invariant Within(ViewAll(todo), t)
      invariant NodesOf(todo) <= NodesOf(s.kids)
      invariant fresh(room - NodesOf(s.kids)) && SameKind(bm)
      decreases |todo|
    {
      ghost var kid, rest := todo[0], todo[1..];
      assert todo == [kid] + rest;
      OneMore(kid, rest);
      Lighter(View(kid), ViewAll(rest), t);
      assert allocated(NodesOf(rest));
      NoNodes();
      NothingWithin(t);
      childOn, room, done, todo := RedistributeChild(bm, childOn, whole, room, done, kid, rest);
    }
    EndOngoing(bm, whole, room, done);
    s1 := Shape(bm, done);
  }

  /** A branch redistributed without a parent: a split makes a new root above it. */
  ghost function Rooted(op: Op, p: Placed): Tree {
    if p.added == [] then p.here else Branch(op, [p.here] + p.added).(tag := p.ptag)
  }

  /** The specification of a redistribution, one step unfolded at the branch `t` that became `t1`. */
  lemma {:induction false} RedistributeSteps(t: Tree, t1: Tree, pop: Op, ptag: nat, shrink: bool)
    requires t.branch && t1 == t.(kids := t1.kids, tag := t1.tag)
    requires RedistributeKids(t.op, t.tag, t.kids) == Kids(t1.kids, t1.tag)
    ensures QueryTree.Redistribute(pop, ptag, t, shrink)
         == if pop != t.op then Placed(t1, [], ptag) else QueryTree.Settle(t1, ptag, shrink)
    ensures RedistributeRoot(t, shrink) == Rooted(t.op, QueryTree.Settle(t1, NO_TAG, shrink))
    ensures Weight(t1) <= Weight(t)
  {
    hide QueryTree.Settle, RedistributeKids;
  }

  /** The new root a split of the old one called for. */
  lemma {:induction false} NewRoot(parent1: Bitmap, op: Op, here: Shape, added: seq<Shape>)
    requires Blank(parent1, op) && parent1.children == [here.node] + Heads(added)
    requires Linked(here) && LinkedAll(added) && Nodes(here) !! NodesOf(added)
    requires parent1 !in Nodes(here) + NodesOf(added)
    ensures var root := Shape(parent1, [here] + added);
            && Linked(root) && Nodes(root) == {parent1} + Nodes(here) + NodesOf(added)
            && View(root) == Branch(op, [View(here)] + ViewAll(added)).(tag := parent1.tag)
  {
    hide Nodes, NodesOf, Linked, LinkedAll, View, ViewAll, Heads;
    OneMore(here, added);
    InShape(Shape(parent1, [here] + added));
    Reread(Shape(parent1, [here] + added));
  }

  /** The combining half, which leaves a root with siblings under a new root. */
  method SettleRoot(parent: Bitmap?, bm: Bitmap, doShrink: bool, ghost s: Shape, ghost pre: seq<Bitmap>,
                    ghost post: seq<Bitmap>)
    returns (r: Bitmap, ghost here: Shape, ghost added: seq<Shape>)
    requires Child(parent, bm, s, pre, post) && bm.branch
    requires parent == null ==> pre == [] && post == []
    requires parent != null ==> parent.op == bm.op
    modifies Just(parent), Nodes(s)
    ensures fresh(Nodes(here) + NodesOf(added) - Nodes(s)) && r == LastOf(here, added)
    ensures parent != null ==>
              var p := QueryTree.Settle(old(View(s)), old(parent.tag), doShrink);
              && Stands(here, added, p.here, p.added) && parent.tag == p.ptag
              && parent.children == pre + [here.node] + post + Heads(added)
              && SameKind(parent)
    ensures parent == null ==>
              && added == [] && Linked(here)
              && View(here) == Rooted(old(bm.op), QueryTree.Settle(old(View(s)), NO_TAG, doShrink))
    decreases Weight(View(s)), 0, 2
  {
    hide Nodes, NodesOf, Linked, LinkedAll, View, ViewAll, Heads, QueryTree.Settle;
    ghost var op := bm.op;
    NoNodes();
    var parent1;
    r, parent1, here, added := Settle(parent, bm, doShrink, s, pre, post);
    if parent == null && parent1 != null {
      NewRoot(parent1, op, here, added);
      r, here, added := parent1, Shape(parent1, [here] + added), [];
    }
  }

  /** Redistributes the branch `bm`, child of `parent` or root, and what splitting it adds to `parent`. */
  method Redistribute(parent: Bitmap?, bm: Bitmap, doShrink: bool, ghost s: Shape, ghost pre: seq<Bitmap>,
                      ghost post: seq<Bitmap>)
    returns (r: Bitmap, ghost here: Shape, ghost added: seq<Shape>)
    requires Child(parent, bm, s, pre, post)
    requires parent == null ==> pre == [] && post == []
    modifies Just(parent), Nodes(s)
    ensures fresh(Nodes(here) + NodesOf(added) - Nodes(s)) && r == LastOf(here, added)
    ensures parent != null ==>
              var p := QueryTree.Redistribute(old(parent.op), old(parent.tag), old(View(s)), doShrink);
              && Stands(here, added, p.here, p.added) && parent.tag == p.ptag
              && parent.children == pre + [here.node] + post + Heads(added)
              && SameKind(parent)
    ensures parent == null ==> added == [] && Linked(here) && View(here) == RedistributeRoot(old(View(s)), doShrink)
    decreases Weight(View(s)), Height(View(s)), 3
  {
    hide Nodes, NodesOf, Linked, LinkedAll, View, ViewAll, RedistributeKids, Heads, Rooted, Stands;
    hide QueryTree.Settle, QueryTree.Redistribute, RedistributeRoot;
    InShape(s);
    Untangled(s);
    NoNodes();
    assert allocated(Nodes(s));
    ghost var t := View(s);
    r, here, added := bm, s, [];
    if !bm.branch {
      LeafStays(t, TagOf(parent), doShrink);
      assert Stands(here, added, t, []) by { Alone(s); }
      return;
    }
    here := RedistributeChildren(bm, s);
    InShape(here);
    Untangled(here);
    RedistributeSteps(t, View(here), if parent == null then t.op else parent.op, TagOf(parent), doShrink);
    if parent != null {
      if parent.op != bm.op {
        Alone(here);
        return;
      }
    }
    ghost var s1 := here;
    label settle:
    r, here, added := SettleRoot(parent, bm, doShrink, s1, pre, post);
    forall b | b in Nodes(here) + NodesOf(added) && b !in Nodes(s) ensures fresh(b) {
      if b !in Nodes(s1) {
        assert b in Nodes(here) + NodesOf(added) - Nodes(s1);
        assert !old@settle(allocated(b));
      } else {
        assert b in Nodes(s1) - Nodes(s);
      }
    }
  }

  lemma {:induction false} Alone(s: Shape)
    requires Linked(s)
    ensures Stands(s, [], View(s), [])
  {
  }

  lemma {:induction false} LeafStays(t: Tree, ptag: nat, shrink: bool)
    requires !t.branch
    ensures forall pop :: QueryTree.Redistribute(pop, ptag, t, shrink) == Placed(t, [], ptag)
    ensures RedistributeRoot(t, shrink) == t
  {
  }

  /** What is done to the tree of a query before its records are sought. */
  method Simplify(bm: Bitmap, ghost s: Shape) returns (r: Bitmap, ghost s1: Shape)
    requires s.node == bm && Linked(s)
    modifies Nodes(s)
    ensures r == s1.node && Linked(s1) && fresh(Nodes(s1) - Nodes(s))
    ensures View(s1) == QueryTree.Simplify(old(View(s)))
  {
    hide Nodes, NodesOf, Linked, View, QueryTree.Reduce, RedistributeRoot;
    assert allocated(Nodes(s));
    NoNodes();
    r, s1 := Reduce(null, bm, s, [], []);
    ghost var reduced, added := s1, [];
    label reduced:
    r, s1, added := Redistribute(null, r, true, s1, [], []);
    forall b | b in Nodes(s1) && b !in Nodes(s) ensures fresh(b) {
      assert b in Nodes(s1) + NodesOf(added) - Nodes(reduced);
      assert !old@reduced(allocated(b));
    }
  }
}
