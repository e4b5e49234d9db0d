/** The child list of tcp/cJSON.c: a `next` chain whose head's `prev` is the last item. */
module JsonList {
  import opened Bytes

  /** What a node carries besides its links; `kind` is the low byte of `type`. */
  datatype Data = Data(
    kind: int,
    isReference: bool,
    valueint: int,
    valuedouble: real,
    valuestring: Option<cstring>,
    name: Option<cstring>)

  /** A node and everything below it, as a value. */
  datatype Tree = Tree(data: Data, children: seq<Tree>)

  ghost predicate Distinct(s: seq<Node>) {
    forall i, j :: 0 <= i < j < |s| ==> s[i] != s[j]
  }

  /** What `next` of item `i` should be. */
  ghost function Following(s: seq<Node>, i: nat): Node? {
    if i + 1 < |s| then s[i + 1] else null
  }

  /** What `prev` of item `i` should be: the head's is the last item. */
  ghost function Preceding(s: seq<Node>, i: nat): Node
    requires i < |s|
  {
    if i > 0 then s[i - 1] else s[|s| - 1]
  }

  ghost predicate Chained(s: seq<Node>)
    reads s
  {
    && (forall i {:trigger s[i].next} :: 0 <= i < |s| ==> s[i].next == Following(s, i))
    && (forall i {:trigger s[i].prev} :: 0 <= i < |s| ==> s[i].prev == Preceding(s, i))
  }

  class Node {
    var next: Node?
    var prev: Node?
    var child: Node?
    var data: Data
    /** The children, in order. */
    ghost var kids: seq<Node>
    /** The tree this node is the root of, where that is known. */
    ghost var tree: Tree

    constructor (data: Data)
      ensures next == null && prev == null && child == null && kids == []
      ensures this.data == data && tree == Tree(data, [])
    {
      next, prev, child, kids := null, null, null, [];
      this.data, tree := data, Tree(data, []);
    }

    /** The chain from `child` is exactly `kids`, doubly linked, with the head's `prev` last. */
    ghost predicate Linked()
      reads this, kids
    {
      && this !in kids && Distinct(kids)
      && child == (if kids == [] then null else kids[0])
      && Chained(kids)
    }

    /** Walks the chain; null when the index is past the end. */
    method GetItem(index: nat) returns (item: Node?)
      requires Linked()
      ensures item == (if index < |kids| then kids[index] else null)
    {
      item := child;
      var left := index;
      ghost var i := 0;
      while item != null && left > 0
        invariant 0 <= i <= |kids| && i + left == index
        invariant item == (if i < |kids| then kids[i] else null)
        decreases |kids| - i
      {
        left := left - 1;
        item := item.next;
        i := i + 1;
      }
    }

    method ArraySize() returns (size: nat)
      requires Linked()
      ensures size == |kids|
    {
      size := 0;
      var current := child;
      while current != null
        invariant size <= |kids|
        invariant current == (if size < |kids| then kids[size] else null)
        decreases |kids| - size
      {
        size := size + 1;
        current := current.next;
      }
    }

    /**
     * Appends in constant time through the head's `prev`. The item's own `next` is only
     * cleared when the list was empty, so the list stays well formed exactly when it was
     * null already or there was nothing to append to.
     */
    method Add(item: Node) returns (ok: bool)
      requires Linked() && item !in kids
      modifies this, kids, item
      ensures ok <==> item != this
      ensures !ok ==> kids == old(kids) && Linked()
      ensures ok ==> kids == old(kids) + [item]
      ensures ok ==> (Linked() <==> old(kids) == [] || old(item.next) == null)
    {
      if item == this {
        return false;
      }
      if child == null {
        child := item;
        item.prev := item;
        item.next := null;
      } else if child.prev != null {
        var last := child.prev;
        last.next := item;
        item.prev := last;
        child.prev := item;
      }
      kids := kids + [item];
      ok := true;
      assert kids[|kids| - 1].next == item.next;
    }

    /** Takes an item out of the list, from position `k`; it no longer points anywhere. */
    method Detach(item: Node) returns (ghost k: nat)
      requires Linked() && item in kids
      modifies this, kids
      ensures k < |old(kids)| && old(kids)[k] == item
      ensures kids == old(kids)[..k] + old(kids)[k + 1..]
      ensures Linked() && item !in kids && item.next == null && item.prev == null
    {
      k :| 0 <= k < |kids| && kids[k] == item;
      Unlink(item, k);
      RemovalLinks(kids, k);
      kids := kids[..k] + kids[k + 1..];
    }

    /** The pointer changes of a detachment: the neighbours of position `k` meet. */
    method Unlink(item: Node, ghost k: nat)
      requires Linked() && k < |kids| && kids[k] == item
      modifies this, kids
      ensures kids == old(kids) && item.next == null && item.prev == null
      ensures child == (if k > 0 then kids[0] else Following(kids, 0))
      ensures Bypassed(kids, k)
    {
      assert item == child <==> k == 0;
      assert item.next == null <==> k == |kids| - 1;
      if item != child {
        assert item.prev == kids[k - 1];
        item.prev.next := item.next;
      }
      if item.next != null {
        assert item.next == kids[k + 1];
        item.next.prev := item.prev;
      }
      if item == child {
        child := item.next;
      } else if item.next == null {
        child.prev := item.prev;
      }
      item.prev := null;
      item.next := null;
    }

    /**
     * Inserts before position `which`, or appends when the list is shorter than that, under
     * the same condition on the item's own `next` as any append.
     */
    method Insert(which: int, item: Node) returns (ok: bool)
      requires Linked() && item != this && item !in kids
      modifies this, kids, item
      ensures ok <==> which >= 0
      ensures !ok ==> kids == old(kids) && Linked()
      ensures ok ==>
                var k := if which < |old(kids)| then which else |old(kids)|;
                kids == old(kids)[..k] + [item] + old(kids)[k..]
      ensures ok ==>
                (Linked() <==>
                 which < |old(kids)| || old(kids) == [] || old(item.next) == null)
    {
      if which < 0 {
        return false;
      }
      var after := GetItem(which);
      if after == null {
        ok := Add(item);
        return;
      }
      Splice(item, after, which);
      InsertionLinks(kids, which, item);
      kids := kids[..which] + [item] + kids[which..];
      ok := true;
    }

    /** The pointer changes of an insertion before the item at position `k`. */
    method Splice(item: Node, after: Node, ghost k: nat)
      requires Linked() && item != this && item !in kids
      requires k < |kids| && kids[k] == after
      modifies this, kids, item
      ensures kids == old(kids) && child == (if k == 0 then item else kids[0])
      ensures Opened(kids, k, item)
    {
      assert after == child <==> k == 0;
      item.next := after;
      item.prev := after.prev;
      after.prev := item;
      if after == child {
        child := item;
      } else {
        assert item.prev == kids[k - 1];
        item.prev.next := item;
      }
    }

    /** Puts `replacement` in the place of `item`, which is left pointing nowhere. */
    method Replace(item: Node, replacement: Node) returns (ghost k: nat)
      requires Linked() && item in kids
      requires replacement == item || (replacement !in kids && replacement != this)
      modifies this, kids, replacement
      ensures k < |old(kids)| && old(kids)[k] == item && kids == old(kids)[k := replacement]
      ensures Linked()
      ensures replacement != item ==> item.next == null && item.prev == null
    {
      k :| 0 <= k < |kids| && kids[k] == item;
      if replacement == item {
        return;
      }
      TakePlace(item, replacement, k);
      ReplacementLinks(kids, k, replacement);
      kids := kids[k := replacement];
    }

    /** The pointer changes of a replacement at position `k`. */
    method TakePlace(item: Node, replacement: Node, ghost k: nat)
      requires Linked() && replacement !in kids && replacement != this
      requires k < |kids| && kids[k] == item
      modifies this, kids, replacement
      ensures kids == old(kids) && item.next == null && item.prev == null
      ensures child == (if k == 0 then replacement else kids[0])
      ensures Swapped(kids, k, replacement)
    {
      assert item == child <==> k == 0;
      assert item.next == null <==> k == |kids| - 1;
      replacement.next := item.next;
      replacement.prev := item.prev;
      if replacement.next != null {
        replacement.next.prev := replacement;
      }
      if child == item {
        if child.prev == child {
          replacement.prev := replacement;
        }
        child := replacement;
      } else {
        if replacement.prev != null {
          assert replacement.prev == kids[k - 1];
          replacement.prev.next := replacement;
        }
        if replacement.next == null {
          child.prev := replacement;
        }
      }
      item.next := null;
      item.prev := null;
    }
  }

  /** The links run past position `k` as if its item were not there. */
  ghost predicate Bypassed(s: seq<Node>, k: nat)
    requires k < |s|
    reads s
  {
    && (forall i {:trigger s[i].next} :: 0 <= i < |s| && i != k ==>
          s[i].next == Following(s, if i + 1 == k then k else i))
    && (forall i {:trigger s[i].prev} :: 0 <= i < |s| && i != k ==>
          s[i].prev == Preceding(s, if i == k + 1 || (i == 0 && k == |s| - 1) then k else i))
  }

  /** Once the gap is closed the shorter sequence is properly linked. */
  lemma RemovalLinks(s: seq<Node>, k: nat)
    requires k < |s| && Distinct(s) && Bypassed(s, k)
    ensures
      var r := s[..k] + s[k + 1..];
      Distinct(r) && s[k] !in r && Chained(r)
  {
    var r := s[..k] + s[k + 1..];
    forall i {:trigger r[i].next} | 0 <= i < |r|
      ensures r[i].next == Following(r, i)
    {
      assert r[i] == s[if i < k then i else i + 1];
    }
    forall i {:trigger r[i].prev} | 0 <= i < |r|
      ensures r[i].prev == Preceding(r, i)
    {
      assert r[i] == s[if i < k then i else i + 1];
    }
  }

  /** The links make room for `x` before position `k`. */
  ghost predicate Opened(s: seq<Node>, k: nat, x: Node)
    requires k < |s|
    reads s, x
  {
    && (forall i {:trigger s[i].next} :: 0 <= i < |s| ==>
          s[i].next == if i + 1 == k then x else Following(s, i))
    && (forall i {:trigger s[i].prev} :: 0 <= i < |s| ==>
          s[i].prev == if i == k then x else Preceding(s, i))
    && x.next == s[k] && x.prev == Preceding(s, k)
  }

  lemma InsertionLinks(s: seq<Node>, k: nat, x: Node)
    requires k < |s| && Distinct(s) && x !in s && Opened(s, k, x)
    ensures
      var r := s[..k] + [x] + s[k..];
      Distinct(r) && Chained(r)
  {
    var r := s[..k] + [x] + s[k..];
    forall i {:trigger r[i].next} | 0 <= i < |r|
      ensures r[i].next == Following(r, i)
    {
      assert r[i] == if i < k then s[i] else if i == k then x else s[i - 1];
    }
    forall i {:trigger r[i].prev} | 0 <= i < |r|
      ensures r[i].prev == Preceding(r, i)
    {
      assert r[i] == if i < k then s[i] else if i == k then x else s[i - 1];
    }
  }

  /** The links run through `x` instead of the item at position `k`. */
  ghost predicate Swapped(s: seq<Node>, k: nat, x: Node)
    requires k < |s|
    reads s, x
  {
    && (forall i {:trigger s[i].next} :: 0 <= i < |s| && i != k ==>
          s[i].next == if i + 1 == k then x else Following(s, i))
    && (forall i {:trigger s[i].prev} :: 0 <= i < |s| && i != k ==>
          s[i].prev == if i == k + 1 || (i == 0 && k == |s| - 1) then x else Preceding(s, i))
    && x.next == Following(s, k) && x.prev == if |s| == 1 then x else Preceding(s, k)
  }

  lemma ReplacementLinks(s: seq<Node>, k: nat, x: Node)
    requires k < |s| && Distinct(s) && x !in s && Swapped(s, k, x)
    ensures Distinct(s[k := x]) && Chained(s[k := x])
  {
    var r := s[k := x];
    forall i {:trigger r[i].next} | 0 <= i < |r|
      ensures r[i].next == Following(r, i)
    {
      assert r[i] == if i == k then x else s[i];
    }
    forall i {:trigger r[i].prev} | 0 <= i < |r|
      ensures r[i].prev == Preceding(r, i)
    {
      assert r[i] == if i == k then x else s[i];
    }
  }
}
