/** The registry's binary search tree of profiles keyed by full name, its
    abstract views (keys, stored pairs, name-to-profile map), the search order
    and the counts by interest flag. */
module ProfileTree {
  import opened StringOrder
  import opened Matching

  /** A node holds a person's full name, their profile and two subtrees. */
  datatype Tree = Leaf | Node(name: string, profile: Profile, left: Tree, right: Tree)

  function Size(t: Tree): nat
  {
    match t
    case Leaf => 0
    case Node(_, _, l, r) => Size(l) + 1 + Size(r)
  }

  /** The names stored in the tree. */
  function Keys(t: Tree): set<string>
  {
    match t
    case Leaf => {}
    case Node(n, _, l, r) => Keys(l) + {n} + Keys(r)
  }

  /** Every (name, profile) pair stored, with its multiplicity. */
  function Bag(t: Tree): (b: multiset<(string, Profile)>)
    ensures |b| == Size(t)
  {
    match t
    case Leaf => multiset{}
    case Node(n, p, l, r) => Bag(l) + multiset{(n, p)} + Bag(r)
  }

  /** The name-to-profile view; it loses nothing when names are distinct, as
      they are in an Ordered tree. */
  function Contents(t: Tree): (m: map<string, Profile>)
    ensures m.Keys == Keys(t)
  {
    match t
    case Leaf => map[]
    case Node(n, p, l, r) => Contents(l) + Contents(r) + map[n := p]
  }

  /** The search order insertPerson maintains by itself: names that compare
      at most equal lie to the left, greater names to the right. */
  predicate SearchOrdered(t: Tree)
  {
    match t
    case Leaf => true
    case Node(n, _, l, r) =>
      && SearchOrdered(l) && SearchOrdered(r)
      && (forall k :: k in Keys(l) ==> CompareTo(k, n) <= 0)
      && (forall k :: k in Keys(r) ==> CompareTo(k, n) > 0)
  }

  /** The strict search order with distinct names: smaller names to the left,
      greater names to the right. */
  predicate Ordered(t: Tree)
  {
    match t
    case Leaf => true
    case Node(n, _, l, r) =>
      && Ordered(l) && Ordered(r)
      && (forall k :: k in Keys(l) ==> CompareTo(k, n) < 0)
      && (forall k :: k in Keys(r) ==> CompareTo(k, n) > 0)
  }

  /** No name is stored twice. */
  predicate Distinct(t: Tree)
  {
    match t
    case Leaf => true
    case Node(n, _, l, r) =>
      && Distinct(l) && Distinct(r)
      && n !in Keys(l) && n !in Keys(r) && Keys(l) !! Keys(r)
  }

  /** The strict order rules out duplicate names. */
  lemma {:induction false} OrderedDistinct(t: Tree)
    requires Ordered(t)
    ensures Distinct(t)
  {
    match t
    case Leaf =>
    case Node(n, _, l, r) =>
      OrderedDistinct(l);
      OrderedDistinct(r);
      forall k | k in Keys(l) && k in Keys(r)
        ensures false
      {
        CompareToAntisymmetric(k, n);
      }
  }

  /** The names of an in-order traversal. */
  function InOrder(t: Tree): (names: seq<string>)
    ensures |names| == Size(t)
  {
    match t
    case Leaf => []
    case Node(n, _, l, r) => InOrder(l) + [n] + InOrder(r)
  }

  /** An in-order traversal visits exactly the tree's names. */
  lemma {:induction false} InOrderKeys(t: Tree)
    ensures forall k :: k in InOrder(t) <==> k in Keys(t)
  {
    match t
    case Leaf =>
    case Node(_, _, l, r) =>
      InOrderKeys(l);
      InOrderKeys(r);
  }

  /** Names in strictly increasing order. */
  predicate Increasing(s: seq<string>)
  {
    forall i, j :: 0 <= i < j < |s| ==> CompareTo(s[i], s[j]) < 0
  }

  /** Two increasing runs separated by a name above the first and below the
      second join into one increasing run. */
  lemma IncreasingJoin(a: seq<string>, n: string, b: seq<string>)
    requires Increasing(a) && Increasing(b)
    requires forall k :: k in a ==> CompareTo(k, n) < 0
    requires forall k :: k in b ==> CompareTo(k, n) > 0
    ensures Increasing(a + [n] + b)
  {
    var s := a + [n] + b;
    forall i, j | 0 <= i < j < |s|
      ensures CompareTo(s[i], s[j]) < 0
    {
      if i == |a| && j > |a| {
        assert s[j] in b;
        CompareToAntisymmetric(s[j], n);
      } else if i < |a| && j > |a| {
        assert s[i] in a && s[j] in b;
        BelowAndAbove(s[i], n, s[j]);
      } else if i < |a| && j == |a| {
        assert s[i] in a;
      } else if j < |a| {
        assert s[i] == a[i] && s[j] == a[j];
      } else {
        assert s[i] == b[i - |a| - 1] && s[j] == b[j - |a| - 1];
      }
    }
  }

  /** An Ordered tree lists its names in strictly increasing order. */
  lemma {:induction false} InOrderSorted(t: Tree)
    requires Ordered(t)
    ensures Increasing(InOrder(t))
  {
    match t
    case Leaf =>
    case Node(n, _, l, r) =>
      InOrderSorted(l);
      InOrderSorted(r);
      InOrderKeys(l);
      InOrderKeys(r);
      IncreasingJoin(InOrder(l), n, InOrder(r));
  }

  /** traverseBST: the number of nodes whose interest flag equals isOfInterest. */
  function CountMatching(t: Tree, isOfInterest: bool): (count: nat)
    ensures count <= Size(t)
  {
    match t
    case Leaf => 0
    case Node(_, p, l, r) =>
      (if p.marked == isOfInterest then 1 else 0)
        + CountMatching(l, isOfInterest) + CountMatching(r, isOfInterest)
  }

  /** Every node is counted under exactly one flag value. */
  lemma {:induction false} CountMatchingPartition(t: Tree)
    ensures CountMatching(t, true) + CountMatching(t, false) == Size(t)
  {
    match t
    case Leaf =>
    case Node(_, _, l, r) =>
      CountMatchingPartition(l);
      CountMatchingPartition(r);
  }

  /** The names of the unflagged nodes, with multiplicity. */
  function UnmarkedBag(t: Tree): (b: multiset<string>)
    ensures |b| == CountMatching(t, false)
    ensures forall k :: k in b ==> k in Keys(t)
  {
    match t
    case Leaf => multiset{}
    case Node(n, p, l, r) =>
      (if !p.marked then multiset{n} else multiset{}) + UnmarkedBag(l) + UnmarkedBag(r)
  }

  /** With distinct names a name occurs at most once among the unflagged names. */
  lemma {:induction false} UnmarkedBagOnce(t: Tree, x: string)
    requires Distinct(t)
    ensures UnmarkedBag(t)[x] <= 1
  {
    match t
    case Leaf =>
    case Node(n, p, l, r) =>
      var own := if !p.marked then multiset{n} else multiset{};
      assert UnmarkedBag(t)[x] == own[x] + UnmarkedBag(l)[x] + UnmarkedBag(r)[x];
      if x == n {
        assert UnmarkedBag(l)[x] == 0 && UnmarkedBag(r)[x] == 0;
      } else if x in Keys(l) {
        UnmarkedBagOnce(l, x);
        assert UnmarkedBag(r)[x] == 0;
      } else {
        UnmarkedBagOnce(r, x);
        assert UnmarkedBag(l)[x] == 0;
      }
  }

  /** With distinct names a name is among the unflagged names exactly when it
      is stored with an unflagged profile. */
  lemma {:induction false} UnmarkedBagMember(t: Tree, x: string)
    requires Distinct(t)
    ensures x in UnmarkedBag(t) <==> x in Contents(t) && !Contents(t)[x].marked
  {
    match t
    case Leaf =>
    case Node(n, p, l, r) =>
      var own := if !p.marked then multiset{n} else multiset{};
      var c := Contents(t);
      assert UnmarkedBag(t)[x] == own[x] + UnmarkedBag(l)[x] + UnmarkedBag(r)[x];
      if x == n {
        assert UnmarkedBag(l)[x] == 0 && UnmarkedBag(r)[x] == 0;
        assert x in c && c[x] == p;
      } else if x in Keys(l) {
        UnmarkedBagMember(l, x);
        assert UnmarkedBag(r)[x] == 0 && own[x] == 0;
        assert x in c && c[x] == Contents(l)[x];
      } else if x in Keys(r) {
        UnmarkedBagMember(r, x);
        assert UnmarkedBag(l)[x] == 0 && own[x] == 0;
        assert x in c && c[x] == Contents(r)[x];
      } else {
        assert x !in c && x !in UnmarkedBag(t);
      }
  }

  /** A tree with no unflagged profile counts no unflagged node. */
  lemma AllMarkedCountsNone(t: Tree)
    requires Distinct(t)
    requires forall k :: k in Contents(t) ==> Contents(t)[k].marked
    ensures CountMatching(t, false) == 0
  {
    if UnmarkedBag(t) != multiset{} {
      var x :| x in UnmarkedBag(t);
      UnmarkedBagMember(t, x);
    }
  }
}
