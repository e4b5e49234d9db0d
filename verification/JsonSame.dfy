/** When `cJSON_Compare` takes two trees for equal, said without its walk over them. */
module JsonSame {
  import opened Bytes
  import opened JsonList
  import opened JsonDuplicate
  import JsonNumber
  import JsonCompare

  /** The same byte, or the same ASCII letter where case does not matter. */
  predicate AlikeBytes(x: cchar, y: cchar, caseSensitive: bool) {
    x == y || (!caseSensitive && ((65 <= x <= 90 && y == x + 32) || (65 <= y <= 90 && x == y + 32)))
  }

  predicate Alike(a: Option<cstring>, b: Option<cstring>, caseSensitive: bool) {
    && a.Some? && b.Some? && |a.value| == |b.value|
    && forall i :: 0 <= i < |a.value| ==> AlikeBytes(a.value[i], b.value[i], caseSensitive)
  }

  /** Child `j` is the first of that name; a nameless one ends a search that minds the case. */
  predicate FirstNamed(children: seq<Tree>, name: Option<cstring>, caseSensitive: bool, j: nat) {
    && j < |children| && Alike(name, children[j].data.name, caseSensitive)
    && forall k :: 0 <= k < j ==>
         !Alike(name, children[k].data.name, caseSensitive)
         && (caseSensitive ==> children[k].data.name.Some?)
  }

  /** The distance is at most 1 part in 2 to the power 52 of one of the numbers. */
  predicate Near(a: real, b: real) {
    var gap := 4503599627370496.0 * (if a < b then b - a else a - b);
    gap <= a || gap <= -a || gap <= b || gap <= -b
  }

  /**
   * Of one known kind, and: numbers near each other; equal bytes in strings and raw texts;
   * elements the same position by position; for each member of either object the same value in
   * the first member of that name in the other.
   */
  ghost predicate Same(a: Tree, b: Tree, caseSensitive: bool)
    decreases a, 2
  {
    && a.data.kind == b.data.kind && a.data.kind in {1, 2, 4, 8, 16, 32, 64, 128}
    && (a.data.kind == 8 ==> Near(a.data.valuedouble, b.data.valuedouble))
    && (a.data.kind in {16, 128} ==>
          a.data.valuestring.Some? && a.data.valuestring == b.data.valuestring)
    && (a.data.kind == 32 ==> SameElements(a, b, caseSensitive))
    && (a.data.kind == 64 ==> LeftMatched(a, b, caseSensitive) && RightMatched(a, b, caseSensitive))
  }

  ghost predicate SameElements(a: Tree, b: Tree, caseSensitive: bool)
    decreases a, 0
  {
    && |a.children| == |b.children|
    && forall i :: 0 <= i < |a.children| ==> Same(a.children[i], b.children[i], caseSensitive)
  }

  ghost predicate LeftMatched(a: Tree, b: Tree, caseSensitive: bool)
    decreases a, 1
  {
    forall i :: 0 <= i < |a.children| ==> RightPartner(a, b, i, caseSensitive)
  }

  ghost predicate RightMatched(a: Tree, b: Tree, caseSensitive: bool)
    decreases a, 1
  {
    forall j :: 0 <= j < |b.children| ==> LeftPartner(a, b, j, caseSensitive)
  }

  /** Member `i` of the left object has its match in the right one. */
  ghost predicate RightPartner(a: Tree, b: Tree, i: nat, caseSensitive: bool)
    requires i < |a.children|
    decreases a, 0
  {
    exists j: nat :: FirstNamed(b.children, a.children[i].data.name, caseSensitive, j)
                     && Same(a.children[i], b.children[j], caseSensitive)
  }

  /** Member `j` of the right object has its match in the left one. */
  ghost predicate LeftPartner(a: Tree, b: Tree, j: nat, caseSensitive: bool)
    requires j < |b.children|
    decreases a, 0
  {
    exists i: nat :: FirstNamed(a.children, b.children[j].data.name, caseSensitive, i)
                     && Same(a.children[i], b.children[j], caseSensitive)
  }

  // ----- the search for a name -----

  lemma SameNameIff(a: cstring, b: cstring, caseSensitive: bool)
    ensures JsonCompare.SameName(a, b, caseSensitive) <==> Alike(Some(a), Some(b), caseSensitive)
  {
    if caseSensitive && Alike(Some(a), Some(b), true) {
      assert forall i :: 0 <= i < |a| ==> AlikeBytes(a[i], b[i], true);
      assert a == b;
    }
    if !caseSensitive && JsonCompare.SameName(a, b, false) {
      assert forall i :: 0 <= i < |a| ==> JsonCompare.Lower(a[i]) == JsonCompare.Lower(b[i]);
    }
    if !caseSensitive && Alike(Some(a), Some(b), false) {
      assert forall i :: 0 <= i < |a| ==> AlikeBytes(a[i], b[i], false);
    }
  }

  /** The search finds a child exactly when it is the first of that name. */
  lemma {:induction false} FindIff(
    children: seq<Tree>, name: cstring, caseSensitive: bool, from: nat, j: nat)
    requires from <= |children|
    requires forall k :: 0 <= k < from ==>
               !Alike(Some(name), children[k].data.name, caseSensitive)
               && (caseSensitive ==> children[k].data.name.Some?)
    ensures JsonCompare.FindFrom(children, name, caseSensitive, from) == Some(j)
       <==> FirstNamed(children, Some(name), caseSensitive, j)
    decreases |children| - from
  {
    hide Alike;
    if from < |children| {
      var here := children[from].data.name;
      if here.Some? {
        SameNameIff(name, here.value, caseSensitive);
      } else {
        NamelessIsNotAlike(Some(name), caseSensitive);
      }
      if !Alike(Some(name), here, caseSensitive) && (caseSensitive ==> here.Some?) {
        FindIff(children, name, caseSensitive, from + 1, j);
      }
    }
  }

  lemma NamelessIsNotAlike(name: Option<cstring>, caseSensitive: bool)
    ensures !Alike(name, None, caseSensitive) && !Alike(None, name, caseSensitive)
  {
  }

  lemma FoundIff(children: seq<Tree>, name: Option<cstring>, caseSensitive: bool, j: nat)
    ensures JsonCompare.Find(children, name, caseSensitive) == Some(j)
       <==> FirstNamed(children, name, caseSensitive, j)
  {
    if name.Some? {
      FindIff(children, name.value, caseSensitive, 0, j);
    }
  }

  // ----- comparing -----

  lemma NearIff(a: real, b: real)
    ensures JsonNumber.CompareDouble(a, b) <==> Near(a, b)
  {
  }

  /** What the walk decides is that the trees are the same, for all trees and both rules. */
  lemma {:induction false} CompareIff(a: Tree, b: Tree, caseSensitive: bool)
    ensures JsonCompare.Compare(a, b, caseSensitive) <==> Same(a, b, caseSensitive)
    decreases a, 1
  {
    NearIff(a.data.valuedouble, b.data.valuedouble);
    if a.data.kind == b.data.kind == 32 && |a.children| == |b.children| {
      ElementsIff(a, b, caseSensitive);
    } else if a.data.kind == b.data.kind == 64 {
      LeftIff(a, b, caseSensitive);
      RightIff(a, b, caseSensitive);
    }
    hide Near, JsonNumber.CompareDouble, JsonCompare.AllPairs, JsonCompare.AllMatched, SameElements,
      LeftMatched, RightMatched;
  }

  lemma {:induction false} ElementsIff(a: Tree, b: Tree, caseSensitive: bool)
    requires |a.children| == |b.children|
    ensures JsonCompare.AllPairs(a, b, |a.children|, caseSensitive) <==> SameElements(a, b, caseSensitive)
    decreases a, 0
  {
    forall i | 0 <= i < |a.children|
      ensures JsonCompare.ComparePair(a, b, i, i, caseSensitive)
           == Same(a.children[i], b.children[i], caseSensitive)
    {
      CompareIff(a.children[i], b.children[i], caseSensitive);
    }
    hide JsonCompare.ComparePair;
  }

  lemma {:induction false} LeftIff(a: Tree, b: Tree, caseSensitive: bool)
    ensures JsonCompare.AllMatched(a, b, |a.children|, caseSensitive) <==> LeftMatched(a, b, caseSensitive)
    decreases a, 0
  {
    forall i | 0 <= i < |a.children|
      ensures JsonCompare.Matched(a, b, i, caseSensitive) == RightPartner(a, b, i, caseSensitive)
    {
      forall j: nat | j < |b.children|
        ensures JsonCompare.Compare(a.children[i], b.children[j], caseSensitive)
           <==> Same(a.children[i], b.children[j], caseSensitive)
      {
        CompareIff(a.children[i], b.children[j], caseSensitive);
      }
      MatchedIff(a, b, i, caseSensitive);
    }
    hide JsonCompare.Matched, RightPartner;
  }

  lemma {:induction false} RightIff(a: Tree, b: Tree, caseSensitive: bool)
    ensures JsonCompare.AllMatched(b, a, |b.children|, caseSensitive) <==> RightMatched(a, b, caseSensitive)
    decreases a, 0
  {
    forall j | 0 <= j < |b.children|
      ensures JsonCompare.Matched(b, a, j, caseSensitive) == LeftPartner(a, b, j, caseSensitive)
    {
      forall i: nat | i < |a.children|
        ensures JsonCompare.Compare(b.children[j], a.children[i], caseSensitive)
           <==> Same(a.children[i], b.children[j], caseSensitive)
      {
        CompareIff(a.children[i], b.children[j], caseSensitive);
        JsonCompare.CompareSymmetric(a.children[i], b.children[j], caseSensitive);
      }
      MatchedIff(b, a, j, caseSensitive);
    }
    hide JsonCompare.Matched, LeftPartner;
  }

  lemma MatchedIff(a: Tree, b: Tree, i: nat, caseSensitive: bool)
    requires i < |a.children|
    ensures JsonCompare.Matched(a, b, i, caseSensitive)
       <==> exists j: nat :: FirstNamed(b.children, a.children[i].data.name, caseSensitive, j)
                             && JsonCompare.Compare(a.children[i], b.children[j], caseSensitive)
  {
    var name := a.children[i].data.name;
    forall j: nat
      ensures JsonCompare.Find(b.children, name, caseSensitive) == Some(j)
         <==> FirstNamed(b.children, name, caseSensitive, j)
    {
      FoundIff(b.children, name, caseSensitive, j);
    }
    hide JsonCompare.Find, FirstNamed, JsonCompare.Compare;
    var found := JsonCompare.Find(b.children, name, caseSensitive);
    if found.Some? {
      assert FirstNamed(b.children, name, caseSensitive, found.value);
    }
  }

  // ----- well keyed objects -----

  /** In a well keyed object the first member of a name is the only one. */
  lemma OnlyOneIsFirst(children: seq<Tree>, name: Option<cstring>, caseSensitive: bool, j: nat)
    requires JsonCompare.DistinctNames(children, caseSensitive)
    ensures FirstNamed(children, name, caseSensitive, j)
       <==> j < |children| && Alike(name, children[j].data.name, caseSensitive)
  {
    if j < |children| && Alike(name, children[j].data.name, caseSensitive) {
      forall k: nat | k < j
        ensures !Alike(name, children[k].data.name, caseSensitive)
      {
        if Alike(name, children[k].data.name, caseSensitive) {
          AlikeTogether(name, children[j].data.name, children[k].data.name, caseSensitive);
          SameNameIff(children[j].data.name.value, children[k].data.name.value, caseSensitive);
        }
      }
    }
  }

  lemma AlikeTogether(name: Option<cstring>, a: Option<cstring>, b: Option<cstring>, caseSensitive: bool)
    requires Alike(name, a, caseSensitive) && Alike(name, b, caseSensitive)
    ensures Alike(a, b, caseSensitive)
  {
    forall i | 0 <= i < |name.value|
      ensures AlikeBytes(a.value[i], b.value[i], caseSensitive)
    {
      assert AlikeBytes(name.value[i], a.value[i], caseSensitive);
      assert AlikeBytes(name.value[i], b.value[i], caseSensitive);
    }
  }

  /** Some member of that name has the value of the given one. */
  ghost predicate Agreed(x: Tree, children: seq<Tree>, caseSensitive: bool) {
    exists j :: 0 <= j < |children| && Alike(x.data.name, children[j].data.name, caseSensitive)
                && Same(x, children[j], caseSensitive)
  }

  /** Well keyed objects compare equal exactly when they have the same names, with equal values. */
  lemma ObjectsEqualIff(a: Tree, b: Tree, caseSensitive: bool)
    requires a.data.kind == b.data.kind == 64
    requires JsonCompare.WellKeyed(a, caseSensitive) && JsonCompare.WellKeyed(b, caseSensitive)
    ensures JsonCompare.Compare(a, b, caseSensitive) <==>
              && (forall x :: x in a.children ==> Agreed(x, b.children, caseSensitive))
              && (forall y :: y in b.children ==> Agreed(y, a.children, caseSensitive))
  {
    AllAgreed(a, b, caseSensitive);
    AllAgreed(b, a, caseSensitive);
    hide Agreed, JsonCompare.AllMatched;
  }

  lemma AllAgreed(a: Tree, b: Tree, caseSensitive: bool)
    requires JsonCompare.DistinctNames(b.children, caseSensitive)
    ensures JsonCompare.AllMatched(a, b, |a.children|, caseSensitive)
       <==> forall x :: x in a.children ==> Agreed(x, b.children, caseSensitive)
  {
    forall i: nat | i < |a.children|
      ensures JsonCompare.Matched(a, b, i, caseSensitive)
         <==> Agreed(a.children[i], b.children, caseSensitive)
    {
      MatchedIff(a, b, i, caseSensitive);
      forall j: nat | j < |b.children|
        ensures JsonCompare.Compare(a.children[i], b.children[j], caseSensitive)
           <==> Same(a.children[i], b.children[j], caseSensitive)
      {
        CompareIff(a.children[i], b.children[j], caseSensitive);
      }
      forall j: nat
        ensures FirstNamed(b.children, a.children[i].data.name, caseSensitive, j)
           <==> j < |b.children| && Alike(a.children[i].data.name, b.children[j].data.name, caseSensitive)
      {
        OnlyOneIsFirst(b.children, a.children[i].data.name, caseSensitive, j);
      }
    }
    hide JsonCompare.Matched, Agreed;
  }
}
