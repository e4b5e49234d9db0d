/** `cJSON_Duplicate`: a fresh tree with the same abstract value. */
module JsonDuplicate {
  import opened JsonList

  const CIRCULAR_LIMIT: nat := 10000

  // ----- trees as values -----

  /** Levels below the root. */
  function Height(t: Tree): nat {
    MaxHeight(t.children)
  }

  function MaxHeight(children: seq<Tree>): nat {
    if children == [] then 0
    else
      var first, rest := 1 + Height(children[0]), MaxHeight(children[1..]);
      if first < rest then rest else first
  }

  /** The value a copy has: reference marks are dropped throughout. */
  function Cleared(t: Tree): (r: Tree)
    ensures |r.children| == |t.children| && r.data == t.data.(isReference := false)
    ensures forall i :: 0 <= i < |t.children| ==> r.children[i] == Cleared(t.children[i])
  {
    Tree(t.data.(isReference := false),
         seq(|t.children|, i requires 0 <= i < |t.children| => Cleared(t.children[i])))
  }

  lemma {:induction false} ChildHeight(children: seq<Tree>, i: nat)
    requires i < |children|
    ensures Height(children[i]) < MaxHeight(children)
  {
    if i > 0 {
      ChildHeight(children[1..], i - 1);
    }
  }

  /** A list fits a bound exactly when each of its members does. */
  lemma {:induction false} HeightBound(children: seq<Tree>, bound: nat)
    ensures MaxHeight(children) <= bound
       <==> forall i :: 0 <= i < |children| ==> Height(children[i]) < bound
  {
    if children != [] {
      HeightBound(children[1..], bound);
      assert forall i :: 1 <= i < |children| ==> children[i] == children[1..][i - 1];
    }
  }

  // ----- trees in the heap -----

  /** The node's ghost tree is what its data and its children's trees say. */
  ghost predicate Rooted(x: Node)
    reads x, x.kids
  {
    && x.Linked() && x.tree.data == x.data && |x.tree.children| == |x.kids|
    && forall i :: 0 <= i < |x.kids| ==> x.tree.children[i] == x.kids[i].tree
  }

  /** Every node of `s` is rooted and has its children in `s`. */
  ghost predicate Closed(s: set<Node>)
    reads s
  {
    forall x :: x in s ==> (forall k :: k in x.kids ==> k in s) && Rooted(x)
  }

  /** No node is listed under two parents. */
  ghost predicate Separate(s: set<Node>)
    reads s
  {
    forall x, y, k :: x in s && y in s && x != y && k in x.kids ==> k !in y.kids
  }

  /** `s` is a tree of nodes with the given root, which has no parent in it. */
  ghost predicate IsTree(root: Node, s: set<Node>)
    reads s
  {
    root in s && Closed(s) && Separate(s) && forall x :: x in s ==> root !in x.kids
  }

  /** As `Linked`, while the head's `prev` is still to be set. */
  ghost predicate HalfLinked(x: Node, last: Node?)
    reads x`child, x`kids, x.kids
  {
    && x !in x.kids && Distinct(x.kids)
    && x.child == (if x.kids == [] then null else x.kids[0])
    && last == (if x.kids == [] then null else x.kids[|x.kids| - 1])
    && (forall i {:trigger x.kids[i].next} :: 0 <= i < |x.kids| ==>
          x.kids[i].next == Following(x.kids, i))
    && (forall i {:trigger x.kids[i].prev} :: 0 <= i < |x.kids| ==>
          x.kids[i].prev == if i == 0 then null else x.kids[i - 1])
  }

  /** A node under construction: whole trees below it, chained up to `last`. */
  ghost predicate Growing(x: Node, last: Node?, made: set<Node>)
    reads x`child, x`kids, x.kids, made
  {
    && x !in made && Closed(made) && Separate(made) && HalfLinked(x, last)
    && (forall k :: k in x.kids ==> k in made)
    && (forall y, k :: y in made && k in x.kids ==> k !in y.kids)
    && (last != null ==> last in made)
  }

  twostate lemma LinkedKept(y: Node)
    requires old(y.Linked()) && y.kids == old(y.kids) && y.child == old(y.child)
    requires forall k :: k in y.kids ==> k.next == old(k.next) && k.prev == old(k.prev)
    ensures y.Linked()
  {
    var s := y.kids;
    assert forall i {:trigger s[i].next} :: 0 <= i < |s| ==> s[i].next == old(s[i].next);
    assert forall i {:trigger s[i].prev} :: 0 <= i < |s| ==> s[i].prev == old(s[i].prev);
  }

  /** Whether a node is rooted depends on its own fields and its children's links and trees. */
  twostate lemma RootedKept(y: Node)
    requires old(Rooted(y))
    requires y.kids == old(y.kids) && y.child == old(y.child)
    requires y.data == old(y.data) && y.tree == old(y.tree)
    requires forall k :: k in y.kids ==>
               k.next == old(k.next) && k.prev == old(k.prev) && k.tree == old(k.tree)
    ensures Rooted(y)
  {
    LinkedKept(y);
    hide Chained, Distinct;
    forall i | 0 <= i < |y.kids|
      ensures y.tree.children[i] == y.kids[i].tree
    {
      assert y.kids[i] in y.kids;
    }
  }

  ghost function One(x: Node?): set<Node> {
    if x == null then {} else {x}
  }

  /** The pointer changes of one more child. */
  method Link(x: Node, last: Node?, child: Node)
    requires HalfLinked(x, last) && child != x && child !in x.kids
    requires child.next == null && child.prev == null
    modifies x`child, x`kids, One(last)`next, child`prev
    ensures x.kids == old(x.kids) + [child] && HalfLinked(x, child)
  {
    if last != null {
      last.next := child;
      child.prev := last;
    } else {
      x.child := child;
    }
    x.kids := x.kids + [child];
  }

  /** Hangs a whole tree onto the end of a node's chain. */
  method Attach(x: Node, last: Node?, child: Node, ghost made: set<Node>, ghost below: set<Node>)
    requires Growing(x, last, made)
    requires IsTree(child, below) && below !! made && x !in below
    requires child.next == null && child.prev == null
    modifies x`child, x`kids, made`next, child`prev
    ensures x.kids == old(x.kids) + [child] && Growing(x, child, made + below)
    ensures forall k :: k in x.kids ==> k in made + below
  {
    hide HalfLinked, Closed, Rooted;
    KidsInside(made);
    KidsInside(below);
    LinkKept(x, last, child, made, below);
    GrowsBy(x, child, made, below);
  }

  lemma KidsInside(s: set<Node>)
    requires Closed(s)
    ensures forall y, k :: y in s && k in y.kids ==> k in s
  {
    hide Rooted;
  }

  lemma GrowsBy(x: Node, child: Node, made: set<Node>, below: set<Node>)
    requires HalfLinked(x, child) && Closed(made + below) && below !! made && x !in made + below
    requires Separate(made) && Separate(below) && child in below && forall y :: y in below ==> child !in y.kids
    requires forall y, k :: y in made && k in y.kids ==> k in made
    requires forall y, k :: y in below && k in y.kids ==> k in below
    requires x.kids != [] && x.kids[|x.kids| - 1] == child
    requires forall k :: k in x.kids ==> k == child || k in made
    requires forall y, k :: y in made && k in x.kids ==> k !in y.kids || k == child
    ensures Growing(x, child, made + below)
    ensures forall k :: k in x.kids ==> k in made + below
  {
    hide HalfLinked, Rooted;
  }

  /** The link disturbs neither the trees already there nor the one being hung. */
  method LinkKept(x: Node, last: Node?, child: Node, ghost made: set<Node>, ghost below: set<Node>)
    requires Growing(x, last, made)
    requires IsTree(child, below) && below !! made && x !in below
    requires child.next == null && child.prev == null
    modifies x`child, x`kids, made`next, child`prev
    ensures x.kids == old(x.kids) + [child] && HalfLinked(x, child)
    ensures Closed(made + below)
  {
    assert last != null ==> last in x.kids;
    hide Rooted, HalfLinked;
    Link(x, last, child);
    forall y | y in made
      ensures Rooted(y)
    {
      assert last != null ==> last !in y.kids;
      RootedKept(y);
    }
    forall y | y in below
      ensures Rooted(y)
    {
      RootedKept(y);
    }
  }

  /** The head's `prev` closes the chain; the trees below stay whole. */
  method CloseChain(x: Node, last: Node?, ghost made: set<Node>)
    requires Growing(x, last, made)
    modifies made`prev
    ensures x.Linked() && Closed(made) && Separate(made)
  {
    assert x.child != null ==> x.child in x.kids;
    hide HalfLinked, Chained, Distinct, Rooted;
    Close(x, last);
    forall y | y in made
      ensures Rooted(y)
    {
      RootedKept(y);
    }
  }

  /** The chain is closed, and the node's tree is known. */
  method Finish(x: Node, last: Node?, ghost made: set<Node>, ghost trees: seq<Tree>)
    requires Growing(x, last, made) && Carries(x.kids, trees)
    modifies x`tree, made`prev
    ensures IsTree(x, made + {x}) && x.tree == Tree(x.data, trees)
  {
    hide HalfLinked, Chained, Distinct, Rooted, Closed, Separate, IsTree;
    CloseChain(x, last, made);
    x.tree := Tree(x.data, trees);
    RootedNow(x, trees);
    Crowned(x, made);
  }

  /** A rooted node over whole, separate trees. */
  lemma Crowned(x: Node, made: set<Node>)
    requires Closed(made) && Separate(made) && Rooted(x) && x !in made
    requires forall k :: k in x.kids ==> k in made
    requires forall y, k :: y in made && k in x.kids ==> k !in y.kids
    ensures IsTree(x, made + {x})
  {
    hide Rooted;
  }

  lemma RootedNow(x: Node, trees: seq<Tree>)
    requires x.Linked() && Carries(x.kids, trees) && x.tree == Tree(x.data, trees)
    ensures Rooted(x)
  {
  }

  method Close(x: Node, last: Node?)
    requires HalfLinked(x, last)
    modifies One(x.child)`prev
    ensures x.Linked()
  {
    if x.child != null {
      x.child.prev := last;
    }
  }

  /** The nodes' trees, in order. */
  ghost predicate Carries(kids: seq<Node>, trees: seq<Tree>)
    reads kids`tree
  {
    |kids| == |trees| && forall j :: 0 <= j < |trees| ==> kids[j].tree == trees[j]
  }

  lemma CarriesOneMore(kids: seq<Node>, child: Node, trees: seq<Tree>)
    requires Carries(kids, trees)
    ensures Carries(kids + [child], trees + [child.tree])
  {
  }

  lemma CarriesNext(trees: seq<Tree>, i: nat)
    requires i < |trees|
    ensures ClearedPrefix(trees, i + 1) == ClearedPrefix(trees, i) + [Cleared(trees[i])]
  {
  }

  function ClearedPrefix(trees: seq<Tree>, n: nat): (r: seq<Tree>)
    requires n <= |trees|
    ensures |r| == n && forall j :: 0 <= j < n ==> r[j] == Cleared(trees[j])
  {
    seq(n, j requires 0 <= j < n => Cleared(trees[j]))
  }

  /** What the source's chain says about its item number `i`. */
  lemma SourceStep(item: Node, s: set<Node>, i: nat)
    requires item in s && Closed(s) && i < |item.kids|
    ensures item.kids[i] in s
    ensures item.kids[i].next == if i + 1 < |item.kids| then item.kids[i + 1] else null
    ensures |item.tree.children| == |item.kids| && item.kids[i].tree == item.tree.children[i]
  {
    assert Rooted(item);
  }

  twostate lemma SourceUnchanged(s: set<Node>)
    requires old(Closed(s)) && unchanged(s)
    ensures Closed(s)
  {
    forall y | y in s
      ensures Rooted(y)
    {
      assert old(Rooted(y));
      RootedKept(y);
    }
  }

  lemma SourceStart(item: Node, s: set<Node>)
    requires item in s && Closed(s)
    ensures item.child == (if item.kids == [] then null else item.kids[0])
    ensures |item.tree.children| == |item.kids| && item.tree.data == item.data
  {
    assert Rooted(item);
  }

  lemma LimitIs()
    ensures CIRCULAR_LIMIT == 10000
  {
  }

  /**
   * Copies a node and, if asked, everything below it. With enough memory the copy fails
   * exactly when the tree reaches below the limit; it is made of new nodes only.
   */
  method Duplicate(item: Node, recurse: bool, ghost s: set<Node>)
    returns (copy: Node?, ghost made: set<Node>)
    requires item in s && Closed(s)
    ensures copy == null <==> recurse && Height(item.tree) > 10000
    ensures copy != null ==>
              && fresh(made) && IsTree(copy, made) && copy.next == null && copy.prev == null
              && copy.tree == if recurse then Cleared(item.tree)
                              else Tree(item.data.(isReference := false), [])
  {
    LimitIs();
    hide *;
    if recurse {
      copy, made := DuplicateDeep(item, 0, s);
    } else {
      copy := new Node(item.data.(isReference := false));
      SingleIsTree(copy);
      made := {copy};
    }
  }

  /** The recursive copy, `depth` levels below where it started. */
  method DuplicateDeep(item: Node, depth: nat, ghost s: set<Node>)
    returns (copy: Node?, ghost made: set<Node>)
    requires item in s && Closed(s) && depth <= CIRCULAR_LIMIT
    ensures copy == null <==> depth + Height(item.tree) > CIRCULAR_LIMIT
    ensures copy != null ==>
              && fresh(made) && copy in made && IsTree(copy, made)
              && copy.next == null && copy.prev == null && copy.tree == Cleared(item.tree)
    decreases item.tree, 1
  {
    SourceStart(item, s);
    hide *;
    var newitem := new Node(item.data.(isReference := false));
    var ok, last;
    ok, last, made := DuplicateChildren(item, newitem, depth, s);
    if !ok {
      TooHigh(item.tree, CIRCULAR_LIMIT - depth);
      return null, {};
    }
    assert fresh(made + {newitem});
    Seal(newitem, last, made, item.tree, CIRCULAR_LIMIT - depth);
    made := made + {newitem};
    copy := newitem;
  }

  /** The last step of a copy: its chain is closed and its tree is the source's, cleared. */
  method Seal(x: Node, last: Node?, ghost made: set<Node>, ghost t: Tree, ghost room: nat)
    requires Progress(x, last, made, t.children, |t.children|, room)
    requires x.data == t.data.(isReference := false) && x.next == null && x.prev == null
    modifies x`tree, made`prev
    ensures IsTree(x, made + {x}) && x.tree == Cleared(t) && Height(t) <= room
    ensures x.next == null && x.prev == null
  {
    hide *;
    Completed(x, last, made, t, room);
    Finish(x, last, made, ClearedPrefix(t.children, |t.children|));
  }

  lemma TooHigh(t: Tree, room: nat)
    requires exists c :: c in t.children && Height(c) >= room
    ensures Height(t) > room
  {
    HeightBound(t.children, room);
  }

  /** What having copied all the children amounts to. */
  lemma Completed(x: Node, last: Node?, made: set<Node>, t: Tree, room: nat)
    requires Progress(x, last, made, t.children, |t.children|, room)
    ensures x !in made && (forall k :: k in x.kids ==> k in made) && Growing(x, last, made)
    ensures Carries(x.kids, ClearedPrefix(t.children, |t.children|))
    ensures Height(t) <= room
    ensures Cleared(t)
         == Tree(t.data.(isReference := false), ClearedPrefix(t.children, |t.children|))
  {
    HeightBound(t.children, room);
    ClearedTree(t);
    hide Growing, Carries, Cleared, ClearedPrefix;
  }

  lemma ClearedTree(t: Tree)
    ensures Cleared(t)
         == Tree(t.data.(isReference := false), ClearedPrefix(t.children, |t.children|))
  {
    assert Cleared(t).children == ClearedPrefix(t.children, |t.children|);
  }

  lemma SingleIsTree(x: Node)
    requires x.kids == [] && x.child == null && x.tree == Tree(x.data, [])
    ensures IsTree(x, {x})
  {
  }

  /** The first `i` children have been copied under `x`, none of them too deep. */
  ghost predicate Progress(x: Node, last: Node?, made: set<Node>, trees: seq<Tree>, i: nat,
                           room: nat)
    reads x`child, x`kids, x.kids, made
  {
    && i <= |trees| && x !in made && Growing(x, last, made)
    && (forall k :: k in x.kids ==> k in made)
    && Carries(x.kids, ClearedPrefix(trees, i))
    && forall j :: 0 <= j < i ==> Height(trees[j]) < room
  }

  lemma Started(x: Node, trees: seq<Tree>, room: nat)
    requires x.kids == [] && x.child == null
    ensures Progress(x, null, {}, trees, 0, room)
  {
  }

  /** The walk along the source's chain stands at its `i`-th child. */
  ghost predicate At(item: Node, s: set<Node>, child: Node?, i: nat)
    reads s, item
  {
    && item in s && Closed(s) && i <= |item.kids| == |item.tree.children|
    && child == if i < |item.kids| then item.kids[i] else null
  }

  /** The walk along the source's chain, hanging a copy of each child onto `x`. */
  method DuplicateChildren(item: Node, x: Node, depth: nat, ghost s: set<Node>)
    returns (ok: bool, last: Node?, ghost made: set<Node>)
    requires item in s && Closed(s) && depth <= CIRCULAR_LIMIT
    requires x !in s && x.kids == [] && x.child == null
    modifies x`child, x`kids
    ensures ok ==> fresh(made)
    ensures
      var trees := item.tree.children;
      if ok then Progress(x, last, made, trees, |trees|, CIRCULAR_LIMIT - depth)
      else exists t :: t in trees && Height(t) >= CIRCULAR_LIMIT - depth
    decreases item.tree, 0
  {
    ghost var trees := item.tree.children;
    ghost var i := 0;
    var child := item.child;
    last, made := null, {};
    SourceStart(item, s);
    Started(x, trees, CIRCULAR_LIMIT - depth);
    hide *;
    AtFirst(item, s);
    while child != null
      invariant At(item, s, child, i) && item.tree.children == trees
      invariant s !! made && fresh(made)
      invariant Progress(x, last, made, trees, i, CIRCULAR_LIMIT - depth)
      decreases |trees| - i
    {
      AtStep(item, s, child, i);
      var newchild;
      newchild, made := DuplicateOne(child, x, last, depth, s, made, trees, i);
      if newchild == null {
        assert trees[i] in trees;
        return false, null, {};
      }
      last := newchild;
      AtStep(item, s, child, i);
      child := child.next;
      i := i + 1;
    }
    AtEnd(item, s, i);
    ok := true;
  }

  lemma AtFirst(item: Node, s: set<Node>)
    requires item in s && Closed(s)
    ensures At(item, s, item.child, 0)
  {
    SourceStart(item, s);
  }

  lemma AtStep(item: Node, s: set<Node>, child: Node, i: nat)
    requires At(item, s, child, i)
    ensures child in s && Closed(s) && i < |item.tree.children| && child.tree == item.tree.children[i]
    ensures child.tree < item.tree && At(item, s, child.next, i + 1)
  {
    hide Closed;
    SourceStep(item, s, i);
  }

  lemma AtEnd(item: Node, s: set<Node>, i: nat)
    requires At(item, s, null, i)
    ensures i == |item.tree.children|
  {
    hide Closed;
  }

  /** One more child, unless it is too deep: its copy hung onto `x` after `last`. */
  method DuplicateOne(child: Node, x: Node, last: Node?, depth: nat, ghost s: set<Node>,
                      ghost made: set<Node>, ghost trees: seq<Tree>, ghost i: nat)
    returns (newchild: Node?, ghost all: set<Node>)
    requires child in s && Closed(s) && depth <= CIRCULAR_LIMIT
    requires s !! made && x !in s && i < |trees| && child.tree == trees[i]
    requires Progress(x, last, made, trees, i, CIRCULAR_LIMIT - depth)
    modifies x`child, x`kids, made`next
    ensures Closed(s)
    ensures newchild == null ==> Height(trees[i]) >= CIRCULAR_LIMIT - depth
    ensures newchild != null ==>
              s !! all && fresh(all - made) && Progress(x, newchild, all, trees, i + 1, CIRCULAR_LIMIT - depth)
    decreases child.tree, 2
  {
    hide Growing, Carries, ClearedPrefix, Height, Closed, IsTree, Cleared;
    all := made;
    if depth >= CIRCULAR_LIMIT {
      return null, all;
    }
    ghost var below;
    newchild, below := DuplicateDeep(child, depth + 1, s);
    if newchild != null {
      CarriesNext(trees, i);
      CarriesOneMore(x.kids, newchild, ClearedPrefix(trees, i));
      Attach(x, last, newchild, made, below);
      all := made + below;
    }
    SourceUnchanged(s);
  }
}
