/** insertPerson's placement rule as a function on trees, and what it keeps. */
module TreeInsert {
  import opened StringOrder
  import opened Matching
  import opened ProfileTree

  /** Descend right exactly when CompareTo(name, key) > 0 and left otherwise,
      so an equal name goes left; the new node becomes the leaf reached. */
  function Insert(t: Tree, name: string, p: Profile): (r: Tree)
    ensures r.Node?
  {
    match t
    case Leaf => Node(name, p, Leaf, Leaf)
    case Node(n, q, l, rt) =>
      if CompareTo(name, n) > 0 then Node(n, q, l, Insert(rt, name, p))
      else Node(n, q, Insert(l, name, p), rt)
  }

  /** Insertion adds the new name and keeps every other. */
  lemma {:induction false} InsertKeys(t: Tree, name: string, p: Profile)
    ensures Keys(Insert(t, name, p)) == Keys(t) + {name}
  {
    match t
    case Leaf =>
    case Node(n, q, l, r) =>
      if CompareTo(name, n) > 0 {
        InsertKeys(r, name, p);
      } else {
        InsertKeys(l, name, p);
      }
  }

  /** Insertion adds the new (name, profile) pair and loses none. */
  lemma {:induction false} InsertBag(t: Tree, name: string, p: Profile)
    ensures Bag(Insert(t, name, p)) == Bag(t) + multiset{(name, p)}
  {
    match t
    case Leaf =>
    case Node(n, q, l, r) =>
      var x, own := multiset{(name, p)}, multiset{(n, q)};
      if CompareTo(name, n) > 0 {
        InsertBag(r, name, p);
        assert Bag(Insert(t, name, p)) == Bag(l) + own + (Bag(r) + x);
      } else {
        InsertBag(l, name, p);
        assert Bag(Insert(t, name, p)) == (Bag(l) + x) + own + Bag(r);
      }
  }

  /** Insertion adds exactly one node. */
  lemma InsertSize(t: Tree, name: string, p: Profile)
    ensures Size(Insert(t, name, p)) == Size(t) + 1
  {
    InsertBag(t, name, p);
    assert |Bag(Insert(t, name, p))| == |Bag(t)| + 1;
  }

  /** The tie-break: a name equal to a node's name is placed in its left
      subtree, which is where insertion of an existing name ends up. */
  lemma InsertEqualGoesLeft(t: Tree, p: Profile)
    requires t.Node?
    ensures Insert(t, t.name, p) == Node(t.name, t.profile, Insert(t.left, t.name, p), t.right)
  {
  }

  /** Insertion keeps the search order, duplicate names included. */
  lemma {:induction false} InsertSearchOrdered(t: Tree, name: string, p: Profile)
    requires SearchOrdered(t)
    ensures SearchOrdered(Insert(t, name, p))
  {
    match t
    case Leaf =>
    case Node(n, q, l, r) =>
      if CompareTo(name, n) > 0 {
        InsertSearchOrdered(r, name, p);
        InsertKeys(r, name, p);
      } else {
        InsertSearchOrdered(l, name, p);
        InsertKeys(l, name, p);
      }
  }

  /** Inserting a new name keeps the strict order. */
  lemma {:induction false} InsertOrdered(t: Tree, name: string, p: Profile)
    requires Ordered(t) && name !in Keys(t)
    ensures Ordered(Insert(t, name, p))
  {
    match t
    case Leaf =>
    case Node(n, q, l, r) =>
      if CompareTo(name, n) > 0 {
        InsertOrdered(r, name, p);
        InsertKeys(r, name, p);
      } else {
        InsertOrdered(l, name, p);
        InsertKeys(l, name, p);
      }
  }

  /** Inserting a new name keeps the names distinct. */
  lemma {:induction false} InsertDistinct(t: Tree, name: string, p: Profile)
    requires Distinct(t) && name !in Keys(t)
    ensures Distinct(Insert(t, name, p))
  {
    match t
    case Leaf =>
    case Node(n, q, l, r) =>
      if CompareTo(name, n) > 0 {
        InsertDistinct(r, name, p);
        InsertKeys(r, name, p);
      } else {
        InsertDistinct(l, name, p);
        InsertKeys(l, name, p);
      }
  }

  /** Updating the left part of a union at a key the other parts lack. */
  lemma UpdateInLeft<K, V>(a: map<K, V>, b: map<K, V>, n: K, q: V, name: K, p: V)
    requires name != n && name !in b
    ensures a[name := p] + b + map[n := q] == (a + b + map[n := q])[name := p]
  {
  }

  /** Updating the right part of a union at a key the other parts lack. */
  lemma UpdateInRight<K, V>(a: map<K, V>, b: map<K, V>, n: K, q: V, name: K, p: V)
    requires name != n && name !in a
    ensures a + b[name := p] + map[n := q] == (a + b + map[n := q])[name := p]
  {
  }

  /** Inserting a new name adds exactly that entry to the name-to-profile
      view and leaves every other entry as it was. */
  lemma {:induction false} InsertContents(t: Tree, name: string, p: Profile)
    requires Distinct(t) && name !in Keys(t)
    ensures Contents(Insert(t, name, p)) == Contents(t)[name := p]
  {
    match t
    case Leaf =>
    case Node(n, q, l, r) =>
      if CompareTo(name, n) > 0 {
        InsertContents(r, name, p);
        InsertKeys(r, name, p);
        UpdateInRight(Contents(l), Contents(r), n, q, name, p);
      } else {
        InsertContents(l, name, p);
        InsertKeys(l, name, p);
        UpdateInLeft(Contents(l), Contents(r), n, q, name, p);
      }
  }
}
