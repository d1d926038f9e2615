/** Level order, defined level by level, and the facts that tie it to the
    queue-driven traversal of getUnmarkedPeople. */
module Levels {
  import opened Matching
  import opened ProfileTree

  function Height(t: Tree): nat
  {
    match t
    case Leaf => 0
    case Node(_, _, l, r) => 1 + (if Height(l) < Height(r) then Height(r) else Height(l))
  }

  /** The nodes at depth d of t, left to right. */
  function Level(t: Tree, d: nat): seq<Tree>
  {
    match t
    case Leaf => []
    case Node(_, _, l, r) => if d == 0 then [t] else Level(l, d - 1) + Level(r, d - 1)
  }

  /** What the traversal enqueues after visiting x: its left child, then its
      right child, each only when present. */
  function Children(x: Tree): seq<Tree>
    requires x.Node?
  {
    (if x.left.Node? then [x.left] else []) + (if x.right.Node? then [x.right] else [])
  }

  /** The nodes at depth d of every tree of a forest, tree after tree. */
  function LevelsOf(q: seq<Tree>, d: nat): seq<Tree>
  {
    if q == [] then [] else Level(q[0], d) + LevelsOf(q[1..], d)
  }

  /** Levels d up to h - 1 of a forest, one level after the other. */
  function Sweep(q: seq<Tree>, d: nat, h: nat): seq<Tree>
    decreases h - d
  {
    if d >= h then [] else LevelsOf(q, d) + Sweep(q, d + 1, h)
  }

  /** Level order: the root, then the nodes at depth 1 from left to right,
      then those at depth 2, and so on. */
  function LevelOrder(t: Tree): seq<Tree>
  {
    Sweep([t], 0, Height(t))
  }

  /** The names of the unflagged nodes of a sequence of nodes, in order. */
  function UnmarkedNames(s: seq<Tree>): seq<string>
  {
    if s == [] then []
    else
      var own := if s[0].Node? && !s[0].profile.marked then [s[0].name] else [];
      own + UnmarkedNames(s[1..])
  }

  /** The number of nodes in a forest. */
  function ForestSize(q: seq<Tree>): nat
  {
    if q == [] then 0 else Size(q[0]) + ForestSize(q[1..])
  }

  /** The unflagged names of a forest, with multiplicity. */
  function ForestUnmarkedBag(q: seq<Tree>): multiset<string>
  {
    if q == [] then multiset{} else UnmarkedBag(q[0]) + ForestUnmarkedBag(q[1..])
  }

  /** A forest fits below height h: every tree is a node of height at most h. */
  predicate Fits(q: seq<Tree>, h: nat)
  {
    q == [] || (q[0].Node? && Height(q[0]) <= h && Fits(q[1..], h))
  }

  lemma {:induction false} FitsAppend(a: seq<Tree>, b: seq<Tree>, h: nat)
    requires Fits(a, h) && Fits(b, h)
    ensures Fits(a + b, h)
  {
    if a == [] {
      assert a + b == b;
    } else {
      assert (a + b)[0] == a[0] && (a + b)[1..] == a[1..] + b;
      FitsAppend(a[1..], b, h);
    }
  }

  /** A node's children fit below its own height, and so below any h that
      the node fits below. */
  lemma ChildrenFit(x: Tree, h: nat)
    requires x.Node? && Height(x) <= h
    ensures Fits(Children(x), h)
  {
    var lc := if x.left.Node? then [x.left] else [];
    var rc := if x.right.Node? then [x.right] else [];
    assert Fits(lc, h) by {
      if x.left.Node? { assert lc[1..] == []; }
    }
    assert Fits(rc, h) by {
      if x.right.Node? { assert rc[1..] == []; }
    }
    FitsAppend(lc, rc, h);
  }

  lemma {:induction false} LevelsOfAppend(a: seq<Tree>, b: seq<Tree>, d: nat)
    ensures LevelsOf(a + b, d) == LevelsOf(a, d) + LevelsOf(b, d)
  {
    if a != [] {
      assert (a + b)[0] == a[0] && (a + b)[1..] == a[1..] + b;
      LevelsOfAppend(a[1..], b, d);
    } else {
      assert a + b == b;
    }
  }

  lemma LevelsOfSingle(x: Tree, d: nat)
    ensures LevelsOf([x], d) == Level(x, d)
  {
    assert [x][1..] == [];
  }

  /** The level below d of a node is the level d of its children. */
  lemma LevelsOfChildren(x: Tree, d: nat)
    requires x.Node?
    ensures LevelsOf(Children(x), d) == Level(x, d + 1)
  {
    var lc := if x.left.Node? then [x.left] else [];
    var rc := if x.right.Node? then [x.right] else [];
    LevelsOfAppend(lc, rc, d);
    if x.left.Node? { LevelsOfSingle(x.left, d); }
    if x.right.Node? { LevelsOfSingle(x.right, d); }
  }

  /** Nothing lies at or below a tree's height. */
  lemma {:induction false} LevelBeyondHeight(t: Tree, d: nat)
    requires Height(t) <= d
    ensures Level(t, d) == []
  {
    match t
    case Leaf =>
    case Node(_, _, l, r) =>
      LevelBeyondHeight(l, d - 1);
      LevelBeyondHeight(r, d - 1);
  }

  lemma {:induction false} SweepEmpty(d: nat, h: nat)
    ensures Sweep([], d, h) == []
    decreases h - d
  {
    if d < h {
      SweepEmpty(d + 1, h);
    }
  }

  /** Concatenation regroups freely. */
  lemma AppendAssociative<T>(a: seq<T>, b: seq<T>, c: seq<T>)
    ensures a + (b + c) == a + b + c
  {
  }

  /** Regrouping a concatenation whose tail c + s equals t + e. */
  lemma RegroupAppend<T>(a: seq<T>, b: seq<T>, c: seq<T>, s: seq<T>, t: seq<T>, e: seq<T>)
    requires c + s == t + e
    ensures a + (b + c + s) == a + b + t + e
  {
    assert b + c + s == b + (c + s);
  }

  /** Moving a node from the front of the forest to its children at the back
      shifts that node's levels one step earlier. */
  lemma {:induction false} SweepShift(x: Tree, rest: seq<Tree>, d: nat, h: nat)
    requires x.Node? && d <= h
    ensures Level(x, d) + Sweep(rest + Children(x), d, h) == Sweep([x] + rest, d, h) + Level(x, h)
    decreases h - d
  {
    if d < h {
      var s := Sweep(rest + Children(x), d + 1, h);
      var t := Sweep([x] + rest, d + 1, h);
      var a, b, c := Level(x, d), LevelsOf(rest, d), Level(x, d + 1);
      assert Sweep(rest + Children(x), d, h) == b + c + s by {
        LevelsOfAppend(rest, Children(x), d);
        LevelsOfChildren(x, d);
      }
      assert Sweep([x] + rest, d, h) == a + b + t by {
        LevelsOfAppend([x], rest, d);
        LevelsOfSingle(x, d);
      }
      SweepShift(x, rest, d + 1, h);
      RegroupAppend(a, b, c, s, t, Level(x, h));
    } else {
      assert Sweep(rest + Children(x), d, h) == [] && Sweep([x] + rest, d, h) == [];
      assert Level(x, d) + [] == [] + Level(x, h);
    }
  }

  /** One step of the queue: dequeuing x and enqueuing its children leaves
      the rest of the level order unchanged. */
  lemma SweepStep(x: Tree, rest: seq<Tree>, h: nat)
    requires x.Node? && Height(x) <= h
    ensures Sweep([x] + rest, 0, h) == [x] + Sweep(rest + Children(x), 0, h)
  {
    SweepShift(x, rest, 0, h);
    LevelBeyondHeight(x, h);
    assert Sweep([x] + rest, 0, h) + [] == Sweep([x] + rest, 0, h);
  }

  lemma {:induction false} UnmarkedNamesAppend(a: seq<Tree>, b: seq<Tree>)
    ensures UnmarkedNames(a + b) == UnmarkedNames(a) + UnmarkedNames(b)
  {
    if a != [] {
      assert (a + b)[0] == a[0] && (a + b)[1..] == a[1..] + b;
      UnmarkedNamesAppend(a[1..], b);
    } else {
      assert a + b == b;
    }
  }

  lemma {:induction false} ForestSizeAppend(a: seq<Tree>, b: seq<Tree>)
    ensures ForestSize(a + b) == ForestSize(a) + ForestSize(b)
  {
    if a != [] {
      assert (a + b)[0] == a[0] && (a + b)[1..] == a[1..] + b;
      ForestSizeAppend(a[1..], b);
    } else {
      assert a + b == b;
    }
  }

  lemma {:induction false} ForestUnmarkedBagAppend(a: seq<Tree>, b: seq<Tree>)
    ensures ForestUnmarkedBag(a + b) == ForestUnmarkedBag(a) + ForestUnmarkedBag(b)
  {
    if a != [] {
      assert (a + b)[0] == a[0] && (a + b)[1..] == a[1..] + b;
      ForestUnmarkedBagAppend(a[1..], b);
    } else {
      assert a + b == b;
    }
  }

  /** A forest of one tree is that tree. */
  lemma ForestSingle(x: Tree)
    ensures ForestSize([x]) == Size(x) && ForestUnmarkedBag([x]) == UnmarkedBag(x)
  {
    assert [x][1..] == [];
  }

  /** Dequeuing a node and enqueuing its children takes exactly that node
      off the forest: its size drops by one. */
  lemma DequeueSize(x: Tree, rest: seq<Tree>)
    requires x.Node?
    ensures ForestSize(rest + Children(x)) + 1 == ForestSize([x] + rest)
  {
    var lc := if x.left.Node? then [x.left] else [];
    var rc := if x.right.Node? then [x.right] else [];
    ForestSizeAppend(rest, Children(x));
    ForestSizeAppend(lc, rc);
    ForestSizeAppend([x], rest);
    ForestSingle(x);
    if x.left.Node? { ForestSingle(x.left); }
    if x.right.Node? { ForestSingle(x.right); }
    assert ForestSize(lc) == Size(x.left) && ForestSize(rc) == Size(x.right);
  }

  /** ... and its unflagged names lose only that node's own name. */
  lemma DequeueBag(x: Tree, rest: seq<Tree>)
    requires x.Node?
    ensures ForestUnmarkedBag([x] + rest)
         == multiset(UnmarkedNames([x])) + ForestUnmarkedBag(rest + Children(x))
  {
    var own := if !x.profile.marked then multiset{x.name} else multiset{};
    var bl, br, bq := UnmarkedBag(x.left), UnmarkedBag(x.right), ForestUnmarkedBag(rest);
    assert multiset(UnmarkedNames([x])) == own by {
      assert [x][1..] == [];
    }
    assert ForestUnmarkedBag([x] + rest) == own + bl + br + bq by {
      ForestUnmarkedBagAppend([x], rest);
      ForestSingle(x);
    }
    assert ForestUnmarkedBag(rest + Children(x)) == bq + (bl + br) by {
      ChildrenBag(x);
      ForestUnmarkedBagAppend(rest, Children(x));
    }
    BagShuffle(own, bl, br, bq);
  }

  /** The unflagged names of a node's children are those of its subtrees. */
  lemma ChildrenBag(x: Tree)
    requires x.Node?
    ensures ForestUnmarkedBag(Children(x)) == UnmarkedBag(x.left) + UnmarkedBag(x.right)
  {
    var lc := if x.left.Node? then [x.left] else [];
    var rc := if x.right.Node? then [x.right] else [];
    ForestUnmarkedBagAppend(lc, rc);
    if x.left.Node? { ForestSingle(x.left); }
    if x.right.Node? { ForestSingle(x.right); }
  }

  lemma BagShuffle(o: multiset<string>, a: multiset<string>, b: multiset<string>, c: multiset<string>)
    ensures o + a + b + c == o + (c + (a + b))
  {
  }

  /** One round of the traversal's queue: the front node comes first in the
      level order of the queue, and the rest of that order is the level order
      of the queue with the node's children enqueued at the back; that queue
      still fits and holds one node fewer. */
  lemma QueueStep(q: seq<Tree>, h: nat)
    requires q != [] && Fits(q, h)
    ensures Fits(q[1..] + Children(q[0]), h)
    ensures Sweep(q, 0, h) == [q[0]] + Sweep(q[1..] + Children(q[0]), 0, h)
    ensures ForestSize(q[1..] + Children(q[0])) < ForestSize(q)
    ensures UnmarkedNames(Sweep(q, 0, h))
         == (if q[0].profile.marked then [] else [q[0].name])
            + UnmarkedNames(Sweep(q[1..] + Children(q[0]), 0, h))
  {
    var x, rest := q[0], q[1..];
    assert q == [x] + rest;
    SweepStep(x, rest, h);
    DequeueSize(x, rest);
    ChildrenFit(x, h);
    FitsAppend(rest, Children(x), h);
    UnmarkedNamesAppend([x], Sweep(rest + Children(x), 0, h));
    assert [x][1..] == [];
  }

  /** The traversal's state: the queue fits under height h, and the names
      collected so far followed by the unflagged names still to come from
      the queue make up the whole list. */
  predicate Collecting(done: seq<string>, q: seq<Tree>, h: nat, all: seq<string>)
  {
    Fits(q, h) && done + UnmarkedNames(Sweep(q, 0, h)) == all
  }

  /** The traversal's state carried through one round: the front node is
      dequeued, its name collected when it is unflagged, and its children
      enqueued; the new queue is smaller. */
  lemma CollectStep(done: seq<string>, q: seq<Tree>, h: nat, all: seq<string>)
    requires q != [] && Collecting(done, q, h, all)
    ensures Collecting(if q[0].profile.marked then done else done + [q[0].name],
                       q[1..] + Children(q[0]), h, all)
    ensures ForestSize(q[1..] + Children(q[0])) < ForestSize(q)
  {
    QueueStep(q, h);
    var later := UnmarkedNames(Sweep(q[1..] + Children(q[0]), 0, h));
    if !q[0].profile.marked {
      AppendAssociative(done, [q[0].name], later);
    } else {
      assert [] + later == later;
    }
  }

  /** The traversal starts from the root alone, with nothing collected. */
  lemma CollectStart(t: Tree)
    ensures Collecting([], if t == Leaf then [] else [t], Height(t), UnmarkedNames(LevelOrder(t)))
  {
    if t == Leaf {
      SweepEmpty(0, Height(t));
    }
  }

  /** The traversal ends with an empty queue, having collected everything. */
  lemma CollectEnd(done: seq<string>, h: nat, all: seq<string>)
    requires Collecting(done, [], h, all)
    ensures done == all
  {
    SweepEmpty(0, h);
  }

  /** The level order of a forest holds each of its unflagged names as often
      as the forest does. */
  lemma {:induction false} SweepBag(q: seq<Tree>, h: nat)
    requires Fits(q, h)
    ensures multiset(UnmarkedNames(Sweep(q, 0, h))) == ForestUnmarkedBag(q)
    decreases ForestSize(q)
  {
    if q == [] {
      SweepEmpty(0, h);
    } else {
      var x, rest := q[0], q[1..];
      assert q == [x] + rest;
      var next := rest + Children(x);
      SweepStep(x, rest, h);
      DequeueSize(x, rest);
      DequeueBag(x, rest);
      ChildrenFit(x, h);
      FitsAppend(rest, Children(x), h);
      SweepBag(next, h);
      UnmarkedNamesAppend([x], Sweep(next, 0, h));
    }
  }

  /** The level order lists every unflagged name of the tree, each as often as
      it is stored. */
  lemma LevelOrderBag(t: Tree)
    ensures multiset(UnmarkedNames(LevelOrder(t))) == UnmarkedBag(t)
  {
    if t.Node? {
      SweepBag([t], Height(t));
      assert [t][1..] == [];
    } else {
      SweepEmpty(0, 0);
      assert LevelOrder(t) == [];
    }
  }

  /** The level order has as many unflagged names as the tree has unflagged
      nodes. */
  lemma LevelOrderLength(t: Tree)
    ensures |UnmarkedNames(LevelOrder(t))| == CountMatching(t, false)
  {
    LevelOrderBag(t);
    assert |multiset(UnmarkedNames(LevelOrder(t)))| == |UnmarkedBag(t)|;
  }
}
