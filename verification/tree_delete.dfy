/** delete, min and deleteMin: removal by name, with a node that has two
    children replaced by its in-order successor. */
module TreeDelete {
  import opened StringOrder
  import opened Matching
  import opened ProfileTree

  /** min: the leftmost node of a non-empty subtree. */
  function Min(t: Tree): (m: Tree)
    requires t.Node?
    ensures m.Node? && m.left == Leaf
    ensures m.name in Keys(t)
  {
    if t.left == Leaf then t else Min(t.left)
  }

  /** deleteMin: the subtree without its leftmost node, whose right subtree
      takes its place. */
  function DeleteMin(t: Tree): (r: Tree)
    requires t.Node?
    ensures Keys(r) <= Keys(t)
  {
    if t.left == Leaf then t.right
    else Node(t.name, t.profile, DeleteMin(t.left), t.right)
  }

  /** delete: descend by CompareTo; at the matching node, a missing right
      child promotes the left one, a missing left child promotes the right
      one, and otherwise the in-order successor takes the node's place with
      the node's left subtree and the right subtree minus the successor. */
  function Delete(t: Tree, name: string): (r: Tree)
    ensures Keys(r) <= Keys(t)
  {
    match t
    case Leaf => Leaf
    case Node(n, p, l, rt) =>
      var compare := CompareTo(name, n);
      if compare < 0 then Node(n, p, Delete(l, name), rt)
      else if compare > 0 then Node(n, p, l, Delete(rt, name))
      else if rt == Leaf then l
      else if l == Leaf then rt
      else
        var m := Min(rt);
        Node(m.name, m.profile, l, DeleteMin(rt))
  }

  /** Removing a key from the left part of a union that the other parts
      lack. */
  lemma RemoveInLeft<K, V>(a: map<K, V>, b: map<K, V>, n: K, q: V, x: K)
    requires x != n && x !in b
    ensures (a - {x}) + b + map[n := q] == (a + b + map[n := q]) - {x}
  {
  }

  /** Removing a key from the right part of a union that the other parts
      lack. */
  lemma RemoveInRight<K, V>(a: map<K, V>, b: map<K, V>, n: K, q: V, x: K)
    requires x != n && x !in a
    ensures a + (b - {x}) + map[n := q] == (a + b + map[n := q]) - {x}
  {
  }

  /** Removing the root's own entry from a union that holds it only there. */
  lemma RemoveRoot<K, V>(a: map<K, V>, b: map<K, V>, n: K, q: V)
    requires n !in a && n !in b
    ensures (a + b + map[n := q]) - {n} == a + b
  {
  }

  /** The leftmost node's profile is the one stored under its name. */
  lemma {:induction false} MinContents(t: Tree)
    requires t.Node? && Distinct(t)
    ensures Contents(t)[Min(t).name] == Min(t).profile
  {
    if t.left != Leaf {
      MinContents(t.left);
      assert Min(t).name != t.name && Min(t).name !in Keys(t.right);
    }
  }

  /** In an Ordered tree the leftmost name is the least one. */
  lemma {:induction false} MinIsLeast(t: Tree)
    requires t.Node? && Ordered(t)
    ensures forall k :: k in Keys(t) && k != Min(t).name ==> CompareTo(k, Min(t).name) > 0
  {
    var m := Min(t);
    if t.left != Leaf {
      MinIsLeast(t.left);
      assert m == Min(t.left) && CompareTo(m.name, t.name) < 0;
      forall k | k in Keys(t) && k != m.name
        ensures CompareTo(k, m.name) > 0
      {
        if k == t.name {
          CompareToAntisymmetric(m.name, k);
        } else if k in Keys(t.right) {
          BelowAndAbove(m.name, t.name, k);
        }
      }
    }
  }

  /** deleteMin keeps an Ordered tree Ordered. */
  lemma {:induction false} DeleteMinOrdered(t: Tree)
    requires t.Node? && Ordered(t)
    ensures Ordered(DeleteMin(t))
  {
    if t.left != Leaf {
      DeleteMinOrdered(t.left);
    }
  }

  /** deleteMin removes exactly the leftmost entry. */
  lemma {:induction false} DeleteMinContents(t: Tree)
    requires t.Node? && Distinct(t)
    ensures Contents(DeleteMin(t)) == Contents(t) - {Min(t).name}
  {
    if t.left == Leaf {
      RemoveRoot(map[], Contents(t.right), t.name, t.profile);
    } else {
      DeleteMinContents(t.left);
      RemoveInLeft(Contents(t.left), Contents(t.right), t.name, t.profile, Min(t).name);
    }
  }

  /** Deleting a name that is not stored changes nothing. */
  lemma {:induction false} DeleteAbsent(t: Tree, name: string)
    requires name !in Keys(t)
    ensures Delete(t, name) == t
  {
    match t
    case Leaf =>
    case Node(n, p, l, r) =>
      if CompareTo(name, n) < 0 {
        DeleteAbsent(l, name);
      } else if CompareTo(name, n) > 0 {
        DeleteAbsent(r, name);
      }
  }

  /** Deleting keeps the tree Ordered; in the two-children case the successor
      lies above everything on the left and below the rest of the right. */
  lemma {:induction false} DeleteOrdered(t: Tree, name: string)
    requires Ordered(t)
    ensures Ordered(Delete(t, name))
  {
    match t
    case Leaf =>
    case Node(n, p, l, r) =>
      var compare := CompareTo(name, n);
      if compare < 0 {
        DeleteOrdered(l, name);
      } else if compare > 0 {
        DeleteOrdered(r, name);
      } else if r != Leaf && l != Leaf {
        var m := Min(r);
        MinIsLeast(r);
        DeleteMinOrdered(r);
        OrderedDistinct(r);
        DeleteMinContents(r);
        forall k | k in Keys(l)
          ensures CompareTo(k, m.name) < 0
        {
          BelowAndAbove(k, n, m.name);
        }
      }
  }

  /** Deleting a name from an Ordered tree removes exactly that name's entry;
      every other (name, profile) pair stays. */
  lemma {:induction false} DeleteContents(t: Tree, name: string)
    requires Ordered(t)
    ensures Contents(Delete(t, name)) == Contents(t) - {name}
  {
    match t
    case Leaf =>
    case Node(n, p, l, r) =>
      OrderedDistinct(t);
      var compare := CompareTo(name, n);
      if compare < 0 {
        DeleteContents(l, name);
        assert name !in Keys(r) by {
          if name in Keys(r) { CompareToAntisymmetric(name, n); }
        }
        DeleteStep(t, name);
      } else if compare > 0 {
        DeleteContents(r, name);
        assert name !in Keys(l);
        DeleteStep(t, name);
      } else if r == Leaf || l == Leaf {
        DeleteOneChildContents(t);
      } else {
        DeleteSuccessorContents(t);
      }
  }

  /** One step of the descent: if deleting from the subtree the name is
      routed to removes its entry there, deleting from the whole tree removes
      it from the whole tree. */
  lemma DeleteStep(t: Tree, name: string)
    requires t.Node? && Distinct(t) && name != t.name
    requires CompareTo(name, t.name) < 0 ==>
      name !in Keys(t.right) && Contents(Delete(t.left, name)) == Contents(t.left) - {name}
    requires CompareTo(name, t.name) > 0 ==>
      name !in Keys(t.left) && Contents(Delete(t.right, name)) == Contents(t.right) - {name}
    ensures Contents(Delete(t, name)) == Contents(t) - {name}
  {
    var n, p, l, r := t.name, t.profile, t.left, t.right;
    if CompareTo(name, n) < 0 {
      RemoveInLeft(Contents(l), Contents(r), n, p, name);
    } else {
      RemoveInRight(Contents(l), Contents(r), n, p, name);
    }
  }

  /** A node with at most one child is replaced by that child. */
  lemma DeleteOneChildContents(t: Tree)
    requires t.Node? && (t.left == Leaf || t.right == Leaf) && Distinct(t)
    ensures Contents(Delete(t, t.name)) == Contents(t) - {t.name}
  {
    var n, p, l, r := t.name, t.profile, t.left, t.right;
    RemoveRoot(Contents(l), Contents(r), n, p);
    if r == Leaf {
      assert Contents(l) + map[] == Contents(l);
    } else {
      assert map[] + Contents(r) == Contents(r);
    }
  }

  /** Putting an entry back where it was removed restores the union. */
  lemma Reinsert<K, V>(a: map<K, V>, b: map<K, V>, x: K)
    requires x in b
    ensures a + (b - {x}) + map[x := b[x]] == a + b
  {
  }

  /** The two-children case: the successor's entry moves up and nothing else
      changes but the loss of the deleted node's entry. */
  lemma DeleteSuccessorContents(t: Tree)
    requires t.Node? && t.left.Node? && t.right.Node? && Distinct(t)
    ensures Contents(Delete(t, t.name)) == Contents(t) - {t.name}
  {
    var n, p, l, r := t.name, t.profile, t.left, t.right;
    var m := Min(r);
    var d := DeleteMin(r);
    assert Delete(t, n) == Node(m.name, m.profile, l, d);
    MinContents(r);
    DeleteMinContents(r);
    Reinsert(Contents(l), Contents(r), m.name);
    RemoveRoot(Contents(l), Contents(r), n, p);
  }
}
