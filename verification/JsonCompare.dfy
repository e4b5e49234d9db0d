/** `cJSON_Compare`: when two trees are equal, under either rule for keys. */
module JsonCompare {
  import opened Bytes
  import opened JsonList
  import opened JsonNumber
  import opened JsonDuplicate

  const FALSE: int := 1
  const TRUE: int := 2
  const NULL: int := 4
  const NUMBER: int := 8
  const STRING: int := 16
  const ARRAY: int := 32
  const OBJECT: int := 64
  const RAW: int := 128

  predicate Known(kind: int) {
    kind in {FALSE, TRUE, NULL, NUMBER, STRING, ARRAY, OBJECT, RAW}
  }

  function Lower(c: cchar): cchar { if 65 <= c <= 90 then c + 32 else c }

  predicate SameName(a: cstring, b: cstring, caseSensitive: bool) {
    if caseSensitive then a == b
    else |a| == |b| && forall i :: 0 <= i < |a| ==> Lower(a[i]) == Lower(b[i])
  }

  /** First child with the given name; a case-sensitive search stops at a nameless one. */
  function FindFrom(children: seq<Tree>, name: cstring, caseSensitive: bool, i: nat)
    : (r: Option<nat>)
    requires i <= |children|
    ensures r.Some? ==>
              i <= r.value < |children| && children[r.value].data.name.Some?
              && SameName(name, children[r.value].data.name.value, caseSensitive)
    decreases |children| - i
  {
    if i == |children| then None
    else
      match children[i].data.name
      case None => if caseSensitive then None else FindFrom(children, name, caseSensitive, i + 1)
      case Some(n) =>
        if SameName(name, n, caseSensitive) then Some(i)
        else FindFrom(children, name, caseSensitive, i + 1)
  }

  function Find(children: seq<Tree>, name: Option<cstring>, caseSensitive: bool): (r: Option<nat>)
    ensures r.Some? ==> r.value < |children|
  {
    match name
    case None => None
    case Some(n) => FindFrom(children, n, caseSensitive, 0)
  }

  predicate SameText(a: Data, b: Data) {
    a.valuestring.Some? && b.valuestring.Some? && a.valuestring.value == b.valuestring.value
  }

  predicate Compare(a: Tree, b: Tree, caseSensitive: bool)
    decreases Height(a) + Height(b), 3
  {
    if a.data.kind != b.data.kind || !Known(a.data.kind) then false
    else if a.data.kind == NUMBER then CompareDouble(a.data.valuedouble, b.data.valuedouble)
    else if a.data.kind == STRING || a.data.kind == RAW then SameText(a.data, b.data)
    else if a.data.kind == ARRAY then
      |a.children| == |b.children| && AllPairs(a, b, |a.children|, caseSensitive)
    else if a.data.kind == OBJECT then
      AllMatched(a, b, |a.children|, caseSensitive) && AllMatched(b, a, |b.children|, caseSensitive)
    else true
  }

  /** The first `n` children of an array compare equal, position by position. */
  predicate AllPairs(a: Tree, b: Tree, n: nat, caseSensitive: bool)
    requires n <= |a.children| && n <= |b.children|
    decreases Height(a) + Height(b), 2
  {
    forall i :: 0 <= i < n ==> ComparePair(a, b, i, i, caseSensitive)
  }

  /** The first `n` members of an object have their match in the other. */
  predicate AllMatched(a: Tree, b: Tree, n: nat, caseSensitive: bool)
    requires n <= |a.children|
    decreases Height(a) + Height(b), 2
  {
    forall i :: 0 <= i < n ==> Matched(a, b, i, caseSensitive)
  }

  predicate ComparePair(a: Tree, b: Tree, i: nat, j: nat, caseSensitive: bool)
    requires i < |a.children| && j < |b.children|
    decreases Height(a) + Height(b), 0
  {
    ChildHeight(a.children, i);
    ChildHeight(b.children, j);
    Compare(a.children[i], b.children[j], caseSensitive)
  }

  /** The first child of `b` named as child `i` of `a` compares equal to it. */
  predicate Matched(a: Tree, b: Tree, i: nat, caseSensitive: bool)
    requires i < |a.children|
    decreases Height(a) + Height(b), 1
  {
    var j := Find(b.children, a.children[i].data.name, caseSensitive);
    j.Some? && ComparePair(a, b, i, j.value, caseSensitive)
  }

  // ----- symmetry -----

  lemma {:induction false} CompareSymmetric(a: Tree, b: Tree, caseSensitive: bool)
    ensures Compare(a, b, caseSensitive) == Compare(b, a, caseSensitive)
    decreases Height(a)
  {
    if a.data.kind == ARRAY && |a.children| == |b.children| {
      forall i | 0 <= i < |a.children|
        ensures ComparePair(a, b, i, i, caseSensitive) == ComparePair(b, a, i, i, caseSensitive)
      {
        ChildHeight(a.children, i);
        CompareSymmetric(a.children[i], b.children[i], caseSensitive);
      }
      assert AllPairs(a, b, |a.children|, caseSensitive)
          == AllPairs(b, a, |a.children|, caseSensitive);
    }
  }

  // ----- reference marks do not matter -----

  lemma {:induction false} FindIgnoresMarks(t: Tree, name: cstring, caseSensitive: bool, i: nat)
    requires i <= |t.children|
    ensures FindFrom(Cleared(t).children, name, caseSensitive, i)
         == FindFrom(t.children, name, caseSensitive, i)
    decreases |t.children| - i
  {
    if i < |t.children| {
      assert Cleared(t).children[i] == Cleared(t.children[i]);
      FindIgnoresMarks(t, name, caseSensitive, i + 1);
    }
  }

  lemma {:induction false} CompareIgnoresMarks(a: Tree, b: Tree, caseSensitive: bool)
    ensures Compare(Cleared(a), b, caseSensitive) == Compare(a, b, caseSensitive)
    decreases Height(a) + Height(b)
  {
    var c := Cleared(a);
    if a.data.kind == ARRAY && |a.children| == |b.children| {
      forall i | 0 <= i < |a.children|
        ensures ComparePair(c, b, i, i, caseSensitive) == ComparePair(a, b, i, i, caseSensitive)
      {
        PairIgnoresMarks(a, b, i, i, caseSensitive);
      }
      assert AllPairs(c, b, |a.children|, caseSensitive)
          == AllPairs(a, b, |a.children|, caseSensitive);
    }
    if a.data.kind == OBJECT {
      forall i | 0 <= i < |a.children|
        ensures Matched(c, b, i, caseSensitive) == Matched(a, b, i, caseSensitive)
      {
        var j := Find(b.children, a.children[i].data.name, caseSensitive);
        assert c.children[i] == Cleared(a.children[i]);
        if j.Some? {
          PairIgnoresMarks(a, b, i, j.value, caseSensitive);
        }
      }
      forall i | 0 <= i < |b.children|
        ensures Matched(b, c, i, caseSensitive) == Matched(b, a, i, caseSensitive)
      {
        MatchedIgnoresMarks(a, b, i, caseSensitive);
      }
      assert AllMatched(c, b, |a.children|, caseSensitive)
          == AllMatched(a, b, |a.children|, caseSensitive);
      assert AllMatched(b, c, |b.children|, caseSensitive)
          == AllMatched(b, a, |b.children|, caseSensitive);
    }
  }

  lemma {:induction false} PairIgnoresMarks(
    a: Tree, b: Tree, i: nat, j: nat, caseSensitive: bool)
    requires i < |a.children| && j < |b.children|
    ensures ComparePair(Cleared(a), b, i, j, caseSensitive) == ComparePair(a, b, i, j, caseSensitive)
    decreases Height(a) + Height(b), 0
  {
    ChildHeight(a.children, i);
    ChildHeight(b.children, j);
    assert Cleared(a).children[i] == Cleared(a.children[i]);
    CompareIgnoresMarks(a.children[i], b.children[j], caseSensitive);
  }

  lemma {:induction false} MatchedIgnoresMarks(a: Tree, b: Tree, i: nat, caseSensitive: bool)
    requires i < |b.children|
    ensures Matched(b, Cleared(a), i, caseSensitive) == Matched(b, a, i, caseSensitive)
    decreases Height(a) + Height(b), 1
  {
    var name := b.children[i].data.name;
    if name.Some? {
      FindIgnoresMarks(a, name.value, caseSensitive, 0);
      var j := Find(a.children, name, caseSensitive);
      if j.Some? {
        PairIgnoresMarks(a, b, j.value, i, caseSensitive);
        CompareSymmetric(b.children[i], Cleared(a).children[j.value], caseSensitive);
        CompareSymmetric(b.children[i], a.children[j.value], caseSensitive);
      }
    }
  }

  // ----- a tree and its duplicate -----

  /** Types are known, strings are there, and members are named, no two of them alike. */
  predicate WellKeyed(t: Tree, caseSensitive: bool) {
    && Known(t.data.kind)
    && (t.data.kind == STRING || t.data.kind == RAW ==> t.data.valuestring.Some?)
    && (t.data.kind == ARRAY || t.data.kind == OBJECT ==>
          forall i :: 0 <= i < |t.children| ==> WellKeyed(t.children[i], caseSensitive))
    && (t.data.kind == OBJECT ==> DistinctNames(t.children, caseSensitive))
  }

  predicate DistinctNames(children: seq<Tree>, caseSensitive: bool) {
    && (forall i :: 0 <= i < |children| ==> children[i].data.name.Some?)
    && forall i, j :: 0 <= i < j < |children| ==>
         !SameName(children[j].data.name.value, children[i].data.name.value, caseSensitive)
  }

  /**
   * As `WellKeyed`, but a later member of the same name is let pass when its value compares
   * equal to the first one's.
   */
  predicate Consistent(t: Tree, caseSensitive: bool)
    decreases Height(t), 1
  {
    && Known(t.data.kind)
    && (t.data.kind == STRING || t.data.kind == RAW ==> t.data.valuestring.Some?)
    && (t.data.kind == ARRAY ==>
          forall i :: 0 <= i < |t.children| ==> ConsistentChild(t, i, caseSensitive))
    && (t.data.kind == OBJECT ==>
          forall i :: 0 <= i < |t.children| ==> ConsistentMember(t, i, caseSensitive))
  }

  predicate ConsistentChild(t: Tree, i: nat, caseSensitive: bool)
    requires i < |t.children|
    decreases Height(t), 0
  {
    ChildHeight(t.children, i);
    Consistent(t.children[i], caseSensitive)
  }

  predicate ConsistentMember(t: Tree, i: nat, caseSensitive: bool)
    requires i < |t.children|
    decreases Height(t), 0
  {
    ChildHeight(t.children, i);
    var j := Find(t.children, t.children[i].data.name, caseSensitive);
    j.Some? && (if j.value == i then Consistent(t.children[i], caseSensitive)
                else Compare(t.children[i], t.children[j.value], caseSensitive))
  }

  lemma {:induction false} CompareWithItself(t: Tree, caseSensitive: bool)
    ensures Compare(t, t, caseSensitive) <==> Consistent(t, caseSensitive)
    decreases Height(t)
  {
    var n := |t.children|;
    forall i | 0 <= i < n
      ensures ComparePair(t, t, i, i, caseSensitive) == ConsistentChild(t, i, caseSensitive)
    {
      ChildHeight(t.children, i);
      CompareWithItself(t.children[i], caseSensitive);
    }
    forall i | 0 <= i < n
      ensures Matched(t, t, i, caseSensitive) == ConsistentMember(t, i, caseSensitive)
    {
      ChildHeight(t.children, i);
      CompareWithItself(t.children[i], caseSensitive);
    }
    if t.data.kind == ARRAY {
      assert AllPairs(t, t, n, caseSensitive) == Consistent(t, caseSensitive);
    }
    if t.data.kind == OBJECT {
      assert AllMatched(t, t, n, caseSensitive) == Consistent(t, caseSensitive);
    }
  }

  lemma {:induction false} FindsItself(
    children: seq<Tree>, k: nat, caseSensitive: bool, i: nat)
    requires i <= k < |children| && DistinctNames(children, caseSensitive)
    ensures FindFrom(children, children[k].data.name.value, caseSensitive, i) == Some(k)
    decreases k - i
  {
    if i < k {
      FindsItself(children, k, caseSensitive, i + 1);
    }
  }

  lemma {:induction false} WellKeyedIsConsistent(t: Tree, caseSensitive: bool)
    requires WellKeyed(t, caseSensitive)
    ensures Consistent(t, caseSensitive)
    decreases t
  {
    if t.data.kind == ARRAY || t.data.kind == OBJECT {
      forall i | 0 <= i < |t.children|
        ensures ConsistentChild(t, i, caseSensitive)
      {
        WellKeyedIsConsistent(t.children[i], caseSensitive);
      }
      if t.data.kind == OBJECT {
        forall i | 0 <= i < |t.children|
          ensures ConsistentMember(t, i, caseSensitive)
        {
          assert ConsistentChild(t, i, caseSensitive);
          FindsItself(t.children, i, caseSensitive, 0);
        }
      }
    }
  }

  /** A tree compares equal to its duplicate exactly when it is consistent. */
  lemma CompareWithDuplicate(t: Tree, caseSensitive: bool)
    ensures Compare(t, Cleared(t), caseSensitive) <==> Consistent(t, caseSensitive)
    ensures WellKeyed(t, caseSensitive) ==> Compare(t, Cleared(t), caseSensitive)
  {
    CompareSymmetric(t, Cleared(t), caseSensitive);
    CompareIgnoresMarks(t, t, caseSensitive);
    CompareWithItself(t, caseSensitive);
    if WellKeyed(t, caseSensitive) {
      WellKeyedIsConsistent(t, caseSensitive);
    }
  }

  /** Two members of one name and different values: the tree differs from its duplicate. */
  lemma RepeatedKeyDiffers(caseSensitive: bool)
    ensures
      var one := Tree(Data(NUMBER, false, 1, 1.0, None, Some([97])), []);
      var two := Tree(Data(NUMBER, false, 2, 2.0, None, Some([97])), []);
      var t := Tree(Data(OBJECT, false, 0, 0.0, None, None), [one, two]);
      !Compare(t, Cleared(t), caseSensitive)
  {
    var one := Tree(Data(NUMBER, false, 1, 1.0, None, Some([97])), []);
    var two := Tree(Data(NUMBER, false, 2, 2.0, None, Some([97])), []);
    var t := Tree(Data(OBJECT, false, 0, 0.0, None, None), [one, two]);
    assert Find(t.children, t.children[1].data.name, caseSensitive) == Some(0);
    assert !Compare(two, one, caseSensitive);
    assert !ConsistentMember(t, 1, caseSensitive);
    CompareWithDuplicate(t, caseSensitive);
  }

  // ----- on the heap -----

  /** First item of the chain with the given name. */
  method GetObjectItem(parent: Node, name: Option<cstring>, caseSensitive: bool,
                       ghost s: set<Node>)
    returns (item: Node?)
    requires parent in s && Closed(s)
    ensures |parent.kids| == |parent.tree.children|
    ensures item == (match Find(parent.tree.children, name, caseSensitive)
                     case None => null
                     case Some(j) => parent.kids[j])
  {
    SourceStart(parent, s);
    if name.None? {
      return null;
    }
    ghost var trees := parent.tree.children;
    ghost var i := 0;
    item := parent.child;
    while item != null
      && (if caseSensitive then
            item.data.name.Some? && name.value != item.data.name.value
          else
            item.data.name.None? || !SameName(name.value, item.data.name.value, false))
      invariant 0 <= i <= |trees|
      invariant item == (if i < |trees| then parent.kids[i] else null)
      invariant FindFrom(trees, name.value, caseSensitive, 0)
             == FindFrom(trees, name.value, caseSensitive, i)
      decreases |trees| - i
    {
      SourceStep(parent, s, i);
      SourceData(parent.kids[i], s);
      item := item.next;
      i := i + 1;
    }
    if item != null {
      SourceStep(parent, s, i);
      SourceData(item, s);
      if item.data.name.None? {
        item := null;
      }
    }
  }

  lemma SourceData(x: Node, s: set<Node>)
    requires x in s && Closed(s)
    ensures x.data == x.tree.data
  {
    assert Rooted(x);
  }

  /**
   * When the outcome is exactly that of comparing the trees: for two different nodes with no
   * shared children, or if one of the trees is well keyed, whatever the two share.
   */
  ghost predicate Exact(a: Node, b: Node, caseSensitive: bool, s: set<Node>)
    reads s, a, b
  {
    || (Separate(s) && a != b)
    || WellKeyed(a.tree, caseSensitive) || WellKeyed(b.tree, caseSensitive)
  }

  /** Exactness passes from two different nodes to their children. */
  lemma ExactBelow(a: Node, b: Node, i: nat, j: nat, caseSensitive: bool, s: set<Node>)
    requires a in s && b in s && Closed(s) && a != b && i < |a.kids| && j < |b.kids|
    requires a.data.kind == b.data.kind && (a.data.kind == ARRAY || a.data.kind == OBJECT)
    requires Exact(a, b, caseSensitive, s)
    ensures Exact(a.kids[i], b.kids[j], caseSensitive, s)
  {
    SourceData(a, s);
    SourceData(b, s);
    SourceStep(a, s, i);
    SourceStep(b, s, j);
    hide Closed;
    assert a.kids[i] in a.kids && b.kids[j] in b.kids;
  }

  /**
   * Missing items are equal to nothing, and an item of a known type to itself; the two items may
   * be anywhere, and may share children by reference.
   */
  method CompareItems(a: Node?, b: Node?, caseSensitive: bool, ghost s: set<Node>)
    returns (equal: bool)
    requires (a != null ==> a in s) && (b != null ==> b in s) && Closed(s)
    ensures a == null || b == null ==> !equal
    ensures a != null && a == b ==> equal == Known(a.data.kind)
    ensures a != null && b != null && Compare(a.tree, b.tree, caseSensitive) ==> equal
    ensures a != null && b != null && Exact(a, b, caseSensitive, s) ==>
              equal == Compare(a.tree, b.tree, caseSensitive)
  {
    if a == null || b == null {
      return false;
    }
    equal := CompareNodes(a, b, caseSensitive, s);
  }

  /** The walk of two items that are there. */
  method CompareNodes(a: Node, b: Node, caseSensitive: bool, ghost s: set<Node>)
    returns (equal: bool)
    requires a in s && b in s && Closed(s)
    ensures a == b ==> equal == Known(a.data.kind)
    ensures Compare(a.tree, b.tree, caseSensitive) ==> equal
    ensures Exact(a, b, caseSensitive, s) ==> equal == Compare(a.tree, b.tree, caseSensitive)
    decreases Height(a.tree) + Height(b.tree), 3
  {
    SourceData(a, s);
    SourceData(b, s);
    hide Closed, Exact, AllPairs, AllMatched;
    var kind := a.data.kind;
    if kind != b.data.kind || !Known(kind) {
      return false;
    }
    if a == b {
      SameNode(a, caseSensitive, s);
      return true;
    }
    if kind == NUMBER {
      return CompareDouble(a.data.valuedouble, b.data.valuedouble);
    }
    if kind == STRING || kind == RAW {
      return SameText(a.data, b.data);
    }
    if kind == ARRAY {
      equal := CompareElements(a, b, caseSensitive, s);
      return;
    }
    if kind == OBJECT {
      ExactTurned(a, b, caseSensitive, s);
      equal := CompareMembers(a, b, caseSensitive, s);
      if equal {
        equal := CompareMembers(b, a, caseSensitive, s);
      }
      return;
    }
    return true;
  }

  lemma ExactTurned(a: Node, b: Node, caseSensitive: bool, s: set<Node>)
    ensures Exact(a, b, caseSensitive, s) == Exact(b, a, caseSensitive, s)
  {
  }

  /** Taking a node for equal to itself is right whenever the outcome is to be exact. */
  lemma SameNode(a: Node, caseSensitive: bool, s: set<Node>)
    requires a in s && Closed(s) && Known(a.data.kind)
    ensures Exact(a, a, caseSensitive, s) ==> Compare(a.tree, a.tree, caseSensitive)
  {
    hide Compare, WellKeyed, Closed, Separate;
    if Exact(a, a, caseSensitive, s) {
      WellKeyedIsConsistent(a.tree, caseSensitive);
      CompareWithItself(a.tree, caseSensitive);
    }
  }

  method CompareElements(a: Node, b: Node, caseSensitive: bool, ghost s: set<Node>)
    returns (equal: bool)
    requires a in s && b in s && Closed(s) && a != b && a.data.kind == b.data.kind == ARRAY
    ensures !equal ==> |a.tree.children| != |b.tree.children|
                       || !AllPairs(a.tree, b.tree, |a.tree.children|, caseSensitive)
    ensures equal && Exact(a, b, caseSensitive, s) ==>
              |a.tree.children| == |b.tree.children|
              && AllPairs(a.tree, b.tree, |a.tree.children|, caseSensitive)
    decreases Height(a.tree) + Height(b.tree), 2
  {
    SourceStart(a, s);
    SourceStart(b, s);
    hide Compare, ComparePair, Closed, Exact;
    ghost var ta, tb := a.tree, b.tree;
    var x, y := a.child, b.child;
    ghost var i: nat := 0;
    while x != null && y != null
      invariant i <= |ta.children| && i <= |tb.children|
      invariant x == (if i < |ta.children| then a.kids[i] else null)
      invariant y == (if i < |tb.children| then b.kids[i] else null)
      invariant Exact(a, b, caseSensitive, s) ==> AllPairs(ta, tb, i, caseSensitive)
      decreases |ta.children| - i
    {
      SourceStep(a, s, i);
      SourceStep(b, s, i);
      var same := CompareElementPair(a, b, x, y, caseSensitive, s, i);
      if !same {
        return false;
      }
      x, y := x.next, y.next;
      i := i + 1;
    }
    equal := x == y;
  }

  /** One turn of the walk over elements. */
  method CompareElementPair(a: Node, b: Node, x: Node, y: Node, caseSensitive: bool, ghost s: set<Node>,
                            ghost i: nat)
    returns (same: bool)
    requires a in s && b in s && Closed(s) && a != b && a.data.kind == b.data.kind == ARRAY
    requires |a.kids| == |a.tree.children| && |b.kids| == |b.tree.children|
    requires i < |a.kids| && i < |b.kids| && x == a.kids[i] && y == b.kids[i]
    ensures ComparePair(a.tree, b.tree, i, i, caseSensitive) ==> same
    ensures same && Exact(a, b, caseSensitive, s) ==> ComparePair(a.tree, b.tree, i, i, caseSensitive)
    decreases Height(a.tree) + Height(b.tree), 1
  {
    SourceStep(a, s, i);
    SourceStep(b, s, i);
    ChildHeight(a.tree.children, i);
    ChildHeight(b.tree.children, i);
    if Exact(a, b, caseSensitive, s) {
      ExactBelow(a, b, i, i, caseSensitive, s);
    }
    hide Compare, Closed, Exact, Height;
    same := CompareNodes(x, y, caseSensitive, s);
  }

  method CompareMembers(a: Node, b: Node, caseSensitive: bool, ghost s: set<Node>)
    returns (equal: bool)
    requires a in s && b in s && Closed(s) && a != b && a.data.kind == b.data.kind == OBJECT
    ensures AllMatched(a.tree, b.tree, |a.tree.children|, caseSensitive) ==> equal
    ensures equal && Exact(a, b, caseSensitive, s) ==>
              AllMatched(a.tree, b.tree, |a.tree.children|, caseSensitive)
    decreases Height(a.tree) + Height(b.tree), 2
  {
    SourceStart(a, s);
    hide Matched, Closed, Exact;
    ghost var ta, tb := a.tree, b.tree;
    var x := a.child;
    ghost var i: nat := 0;
    while x != null
      invariant i <= |ta.children|
      invariant x == (if i < |ta.children| then a.kids[i] else null)
      invariant Exact(a, b, caseSensitive, s) ==> AllMatched(ta, tb, i, caseSensitive)
      decreases |ta.children| - i
    {
      SourceStep(a, s, i);
      var same := CompareMember(a, b, x, caseSensitive, s, i);
      if !same {
        return false;
      }
      x := x.next;
      i := i + 1;
    }
    equal := true;
  }

  /** One turn of the walk over members: the other object's first member of that name. */
  method CompareMember(a: Node, b: Node, x: Node, caseSensitive: bool, ghost s: set<Node>, ghost i: nat)
    returns (same: bool)
    requires a in s && b in s && Closed(s) && a != b && a.data.kind == b.data.kind == OBJECT
    requires |a.kids| == |a.tree.children| && i < |a.kids| && x == a.kids[i]
    ensures Matched(a.tree, b.tree, i, caseSensitive) ==> same
    ensures same && Exact(a, b, caseSensitive, s) ==> Matched(a.tree, b.tree, i, caseSensitive)
    decreases Height(a.tree) + Height(b.tree), 1
  {
    SourceStep(a, s, i);
    SourceData(x, s);
    ChildHeight(a.tree.children, i);
    hide Compare, Closed, Exact, Height, Find;
    var y := GetObjectItem(b, x.data.name, caseSensitive, s);
    if y == null {
      return false;
    }
    ghost var j := Find(b.tree.children, x.data.name, caseSensitive).value;
    SourceStep(b, s, j);
    ChildHeight(b.tree.children, j);
    if Exact(a, b, caseSensitive, s) {
      ExactBelow(a, b, i, j, caseSensitive, s);
    }
    same := CompareNodes(x, y, caseSensitive, s);
    assert Matched(a.tree, b.tree, i, caseSensitive) == ComparePair(a.tree, b.tree, i, j, caseSensitive);
  }
}
