/** flagProfilesOfInterest's effect on the whole tree: every profile that
    matches the two unknown sequences gets its interest flag set; names,
    markers and the shape of the tree stay as they were. */
module Flagging {
  import opened Matching
  import opened ProfileTree

  /** Every marker in the tree has a non-empty repeat unit. */
  predicate MarkersWellFormed(t: Tree)
  {
    match t
    case Leaf => true
    case Node(_, p, l, r) => UnitsNonEmpty(p.strs) && MarkersWellFormed(l) && MarkersWellFormed(r)
  }

  /** The two trees differ at most in their interest flags. */
  predicate SameShape(a: Tree, b: Tree)
  {
    match (a, b)
    case (Leaf, Leaf) => true
    case (Node(n, p, l, r), Node(n', p', l', r')) =>
      n == n' && p.strs == p'.strs && SameShape(l, l') && SameShape(r, r')
    case _ => false
  }

  /** traverseRec: each node's profile is flagged, in pre-order. */
  function FlagTree(t: Tree, s1: string, s2: string): (r: Tree)
    ensures SameShape(t, r)
    ensures Keys(r) == Keys(t) && Size(r) == Size(t)
  {
    match t
    case Leaf => Leaf
    case Node(n, p, l, rt) => Node(n, Flag(p, s1, s2), FlagTree(l, s1, s2), FlagTree(rt, s1, s2))
  }

  /** The name-to-profile view with every profile flagged. */
  function MapFlag(m: map<string, Profile>, s1: string, s2: string): (f: map<string, Profile>)
    ensures f.Keys == m.Keys
  {
    map k | k in m :: Flag(m[k], s1, s2)
  }

  /** Flagging commutes with the union that builds the name-to-profile view. */
  lemma MapFlagUnion(a: map<string, Profile>, b: map<string, Profile>, n: string, p: Profile,
                     s1: string, s2: string)
    ensures MapFlag(a + b + map[n := p], s1, s2)
         == MapFlag(a, s1, s2) + MapFlag(b, s1, s2) + map[n := Flag(p, s1, s2)]
  {
    var u := a + b + map[n := p];
    var lhs := MapFlag(u, s1, s2);
    var rhs := MapFlag(a, s1, s2) + MapFlag(b, s1, s2) + map[n := Flag(p, s1, s2)];
    assert lhs.Keys == rhs.Keys;
    forall k | k in lhs
      ensures lhs[k] == rhs[k]
    {
      if k == n {
        assert u[k] == p;
      } else if k in b {
        assert u[k] == b[k];
      } else {
        assert u[k] == a[k];
      }
    }
  }

  /** The flag pass maps every stored profile through Flag, names kept. */
  lemma {:induction false} FlagTreeContents(t: Tree, s1: string, s2: string)
    ensures Contents(FlagTree(t, s1, s2)) == MapFlag(Contents(t), s1, s2)
  {
    match t
    case Leaf =>
    case Node(n, p, l, r) =>
      FlagTreeContents(l, s1, s2);
      FlagTreeContents(r, s1, s2);
      MapFlagUnion(Contents(l), Contents(r), n, p, s1, s2);
  }

  /** Flagging twice is flagging once: the markers the decision depends on
      do not change and a set flag stays set. */
  lemma {:induction false} FlagTreeIdempotent(t: Tree, s1: string, s2: string)
    ensures FlagTree(FlagTree(t, s1, s2), s1, s2) == FlagTree(t, s1, s2)
  {
    match t
    case Leaf =>
    case Node(n, p, l, r) =>
      FlagTreeIdempotent(l, s1, s2);
      FlagTreeIdempotent(r, s1, s2);
  }

  /** The flag pass keeps the search order. */
  lemma {:induction false} FlagTreeOrdered(t: Tree, s1: string, s2: string)
    requires Ordered(t)
    ensures Ordered(FlagTree(t, s1, s2)) && Distinct(FlagTree(t, s1, s2))
  {
    match t
    case Leaf =>
    case Node(n, p, l, r) =>
      FlagTreeOrdered(l, s1, s2);
      FlagTreeOrdered(r, s1, s2);
      OrderedDistinct(FlagTree(t, s1, s2));
  }

  /** The unflagged names after the pass are among those before it. */
  lemma {:induction false} FlagTreeUnmarkedShrinks(t: Tree, s1: string, s2: string)
    ensures UnmarkedBag(FlagTree(t, s1, s2)) <= UnmarkedBag(t)
    ensures CountMatching(FlagTree(t, s1, s2), false) <= CountMatching(t, false)
  {
    match t
    case Leaf =>
    case Node(n, p, l, r) =>
      FlagTreeUnmarkedShrinks(l, s1, s2);
      FlagTreeUnmarkedShrinks(r, s1, s2);
      var f := FlagTree(t, s1, s2);
      assert UnmarkedBag(f)
          == (if !Flag(p, s1, s2).marked then multiset{n} else multiset{})
             + UnmarkedBag(FlagTree(l, s1, s2)) + UnmarkedBag(FlagTree(r, s1, s2));
  }

  /** With distinct names, a person stays unflagged after the pass exactly
      when they were unflagged before and their profile is not of interest. */
  lemma FlagTreeUnmarked(t: Tree, s1: string, s2: string, x: string)
    requires Distinct(t)
    ensures x in UnmarkedBag(FlagTree(t, s1, s2)) <==>
      x in Contents(t) && !Contents(t)[x].marked && !OfInterest(Contents(t)[x].strs, s1, s2)
  {
    var f := FlagTree(t, s1, s2);
    FlagTreeDistinct(t, s1, s2);
    FlagTreeContents(t, s1, s2);
    UnmarkedBagMember(f, x);
  }

  /** The flag pass keeps names distinct. */
  lemma {:induction false} FlagTreeDistinct(t: Tree, s1: string, s2: string)
    requires Distinct(t)
    ensures Distinct(FlagTree(t, s1, s2))
  {
    match t
    case Leaf =>
    case Node(n, p, l, r) =>
      FlagTreeDistinct(l, s1, s2);
      FlagTreeDistinct(r, s1, s2);
  }

  /** The flag pass keeps every marker's repeat unit. */
  lemma {:induction false} FlagTreeWellFormed(t: Tree, s1: string, s2: string)
    requires MarkersWellFormed(t)
    ensures MarkersWellFormed(FlagTree(t, s1, s2))
  {
    match t
    case Leaf =>
    case Node(n, p, l, r) =>
      FlagTreeWellFormed(l, s1, s2);
      FlagTreeWellFormed(r, s1, s2);
  }
}
