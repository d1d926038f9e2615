/** The registry object: the root of the profile tree and the two unknown
    sequences, with the operations that insert, flag, list and remove people. */
module Forensic {
  import opened StringOrder
  import opened Matching
  import opened ProfileTree
  import opened TreeInsert
  import opened TreeDelete
  import opened Flagging
  import opened Levels

  /** One step of a descent from the root: the node passed, which side the
      descent took, and the subtree on the other side. */
  datatype Frame = Frame(wentRight: bool, name: string, profile: Profile, other: Tree)

  /** The node of a frame with t on the side the descent took. */
  function Fill(f: Frame, t: Tree): Tree
  {
    if f.wentRight then Node(f.name, f.profile, f.other, t) else Node(f.name, f.profile, t, f.other)
  }

  /** The whole tree rebuilt around t from the frames of a descent, the last
      frame being the innermost. */
  function Plug(path: seq<Frame>, t: Tree): Tree
  {
    if path == [] then t else Plug(path[..|path| - 1], Fill(path[|path| - 1], t))
  }

  /** Adding a frame at the bottom of a descent is filling it first. */
  lemma PlugLast(path: seq<Frame>, f: Frame, t: Tree)
    ensures Plug(path + [f], t) == Plug(path, Fill(f, t))
  {
    assert (path + [f])[..|path|] == path;
  }

  /** Enqueuing a node's left child and then its right child, each when
      present, appends its children. */
  lemma QueueAppendChildren(queue: seq<Tree>, node: Tree)
    requires node.Node?
    ensures (if node.right != Leaf
             then (if node.left != Leaf then queue + [node.left] else queue) + [node.right]
             else (if node.left != Leaf then queue + [node.left] else queue))
         == queue + Children(node)
  {
  }

  /** The name-to-profile view restricted to flagged profiles. */
  function KeepMarked(m: map<string, Profile>): (r: map<string, Profile>)
    ensures forall k :: k in r <==> k in m && m[k].marked
  {
    map k | k in m && m[k].marked :: m[k]
  }

  /** An element already seen earlier in a sequence occurs in it at least
      twice. */
  lemma SeenTwice(s: seq<string>, i: int)
    requires 0 <= i < |s| && s[i] in s[..i]
    ensures multiset(s)[s[i]] >= 2
  {
    assert s == s[..i] + s[i..];
    assert s[i..][0] == s[i];
  }

  /** The level-order list of the unflagged names of a tree with distinct
      names holds each unflagged person exactly once and nobody else. */
  lemma UnmarkedList(s: seq<string>, t: Tree)
    requires Distinct(t) && s == UnmarkedNames(LevelOrder(t))
    ensures forall i :: 0 <= i < |s| ==> s[i] in Contents(t) && !Contents(t)[s[i]].marked
    ensures forall i, j :: 0 <= i < j < |s| ==> s[i] != s[j]
    ensures forall x :: x in Contents(t) && !Contents(t)[x].marked ==> x in s
  {
    LevelOrderBag(t);
    forall i | 0 <= i < |s|
      ensures s[i] in Contents(t) && !Contents(t)[s[i]].marked
    {
      assert s[i] in multiset(s);
      UnmarkedBagMember(t, s[i]);
    }
    forall i, j | 0 <= i < j < |s|
      ensures s[i] != s[j]
    {
      if s[i] == s[j] {
        assert s[j] in s[..j];
        SeenTwice(s, j);
        UnmarkedBagOnce(t, s[j]);
      }
    }
    forall x | x in Contents(t) && !Contents(t)[x].marked
      ensures x in s
    {
      UnmarkedBagMember(t, x);
      assert x in multiset(s);
    }
  }

  /** Removing exactly the unflagged names from a name-to-profile view keeps
      exactly the flagged entries. */
  lemma RemoveUnmarked(m: map<string, Profile>, removed: set<string>)
    requires forall x :: x in removed <==> x in m && !m[x].marked
    ensures m - removed == KeepMarked(m)
  {
  }

  /** The names of a list, as a set. */
  function Listed(s: seq<string>): set<string>
  {
    set x | x in s
  }

  /** The state of cleanupTree after i names of the level-order list s of the
      unflagged names of t0: t is Ordered and holds t0's entries but those of
      the first i names. */
  predicate CleanedUpTo(t0: Tree, s: seq<string>, i: int, t: Tree)
  {
    0 <= i <= |s| && Ordered(t) && Contents(t) == Contents(t0) - Listed(s[..i])
  }

  /** Before the first removal nothing is removed. */
  lemma CleanupStart(t0: Tree, s: seq<string>)
    requires Ordered(t0)
    ensures CleanedUpTo(t0, s, 0, t0)
  {
    assert s[..0] == [];
    assert Listed([]) == {};
    RemoveNone(Contents(t0));
  }

  /** The next name of the level-order list of unflagged names is stored and
      has not come up before. */
  lemma NextUnmarked(t0: Tree, s: seq<string>, i: int)
    requires Ordered(t0) && s == UnmarkedNames(LevelOrder(t0)) && 0 <= i < |s|
    ensures s[i] in Contents(t0) && s[i] !in Listed(s[..i])
  {
    OrderedDistinct(t0);
    UnmarkedList(s, t0);
  }

  /** The names listed grow by one name at a time. */
  lemma ListedGrows(s: seq<string>, i: int)
    requires 0 <= i < |s|
    ensures Listed(s[..i + 1]) == Listed(s[..i]) + {s[i]}
  {
    assert s[..i + 1] == s[..i] + [s[i]];
  }

  /** Removing no key changes nothing. */
  lemma RemoveNone<K, V>(m: map<K, V>)
    ensures m - {} == m
  {
  }

  /** Removing a set of keys and then one more key is removing both at once. */
  lemma RemoveTwice<K, V>(m: map<K, V>, removed: set<K>, x: K)
    ensures m - removed - {x} == m - (removed + {x})
  {
  }

  /** Deleting a name that is still stored keeps the tree Ordered and takes
      that name out of what is left. */
  lemma RemoveListed(t: Tree, m: map<string, Profile>, removed: set<string>, x: string)
    requires Ordered(t) && Contents(t) == m - removed && x in m && x !in removed
    ensures t.Node? && Ordered(Delete(t, x))
    ensures Contents(Delete(t, x)) == m - (removed + {x})
  {
    DeleteOrdered(t, x);
    DeleteContents(t, x);
    RemoveTwice(m, removed, x);
  }

  /** One removal of the cleanup loop: the next listed name is still stored,
      so the tree is not empty, and deleting it moves the loop's state one
      name on. */
  lemma CleanupStep(t0: Tree, s: seq<string>, i: int, t: Tree)
    requires Ordered(t0) && s == UnmarkedNames(LevelOrder(t0))
    requires i < |s| && CleanedUpTo(t0, s, i, t)
    ensures t.Node? && CleanedUpTo(t0, s, i + 1, Delete(t, s[i]))
  {
    NextUnmarked(t0, s, i);
    RemoveListed(t, Contents(t0), Listed(s[..i]), s[i]);
    ListedGrows(s, i);
  }

  /** Once every name of the level-order list of unflagged names is removed,
      the tree is Ordered, exactly the flagged entries remain and no unflagged
      node is left. */
  lemma CleanupResult(t0: Tree, s: seq<string>, t: Tree)
    requires Ordered(t0) && s == UnmarkedNames(LevelOrder(t0))
    requires CleanedUpTo(t0, s, |s|, t)
    ensures Ordered(t)
    ensures Contents(t) == KeepMarked(Contents(t0))
    ensures CountMatching(t, false) == 0
  {
    assert s[..|s|] == s;
    OrderedDistinct(t0);
    UnmarkedList(s, t0);
    RemoveUnmarked(Contents(t0), Listed(s));
    OrderedDistinct(t);
    AllMarkedCountsNone(t);
  }

  class ForensicAnalysis {
    var root: Tree
    var firstUnknownSequence: string
    var secondUnknownSequence: string

    /** An empty registry; the two unknown sequences are the ones buildTree
        reads first. */
    constructor(first: string, second: string)
      ensures root == Leaf
      ensures firstUnknownSequence == first && secondUnknownSequence == second
    {
      root := Leaf;
      firstUnknownSequence := first;
      secondUnknownSequence := second;
    }

    /** insertPerson: walks down from the root, right when the name compares
        greater and left otherwise, and links the new node where the walk
        falls off the tree. */
    method InsertPerson(name: string, newProfile: Profile)
      modifies this
      ensures root == Insert(old(root), name, newProfile)
      ensures firstUnknownSequence == old(firstUnknownSequence)
      ensures secondUnknownSequence == old(secondUnknownSequence)
    {
      var ptr := root;
      var path: seq<Frame> := [];
      var cmp := 0;
      while ptr != Leaf
        invariant unchanged(this)
        invariant Plug(path, Insert(ptr, name, newProfile)) == Insert(root, name, newProfile)
        invariant path != [] ==> path[|path| - 1].wentRight == (cmp > 0)
        decreases ptr
      {
        cmp := CompareTo(name, ptr.name);
        var f := Frame(cmp > 0, ptr.name, ptr.profile, if cmp > 0 then ptr.left else ptr.right);
        var next := if cmp > 0 then ptr.right else ptr.left;
        assert Fill(f, Insert(next, name, newProfile)) == Insert(ptr, name, newProfile);
        PlugLast(path, f, Insert(next, name, newProfile));
        path := path + [f];
        ptr := next;
      }
      var add := Node(name, newProfile, Leaf, Leaf);
      assert Plug(path, add) == Insert(old(root), name, newProfile);
      if path == [] {
        root := add;
      } else {
        var prev := path[|path| - 1];
        var above := path[..|path| - 1];
        assert path == above + [prev];
        PlugLast(above, prev, add);
        if cmp > 0 {
          root := Plug(above, Node(prev.name, prev.profile, prev.other, add));
        } else {
          root := Plug(above, Node(prev.name, prev.profile, add, prev.other));
        }
      }
    }

    /** getMatchingProfileCount: the number of people whose interest flag
        equals isOfInterest; the two counts together cover everyone. */
    function GetMatchingProfileCount(isOfInterest: bool): (count: nat)
      reads this
      ensures count + CountMatching(root, !isOfInterest) == Size(root)
    {
      CountMatchingPartition(root);
      CountMatching(root, isOfInterest)
    }

    /** traverseRec: counts the satisfied markers of each profile, flags the
        profile when they reach half of its markers rounded up, and goes on
        with the left and then the right subtree. */
    method TraverseRec(node: Tree) returns (r: Tree)
      requires MarkersWellFormed(node)
      ensures r == FlagTree(node, firstUnknownSequence, secondUnknownSequence)
      decreases node
    {
      if node == Leaf {
        return Leaf;
      }
      var strs := node.profile.strs;
      var count, i := 0, 0;
      while i < |strs|
        invariant 0 <= i <= |strs|
        invariant count == SatisfiedCount(strs[..i], firstUnknownSequence, secondUnknownSequence)
      {
        var numfirst := NumberOfOccurrences(firstUnknownSequence, strs[i].unit);
        var numsecond := NumberOfOccurrences(secondUnknownSequence, strs[i].unit);
        if numfirst + numsecond == strs[i].occurrences {
          count := count + 1;
        }
        assert strs[..i + 1][..i] == strs[..i];
        i := i + 1;
      }
      assert strs[..i] == strs;
      var profile := node.profile;
      if count >= (|strs| + 1) / 2 {
        profile := profile.(marked := true);
      }
      var left := TraverseRec(node.left);
      var right := TraverseRec(node.right);
      r := Node(node.name, profile, left, right);
    }

    /** flagProfilesOfInterest: the flag pass over the whole tree. */
    method FlagProfilesOfInterest()
      requires MarkersWellFormed(root)
      modifies this
      ensures root == FlagTree(old(root), firstUnknownSequence, secondUnknownSequence)
      ensures firstUnknownSequence == old(firstUnknownSequence)
      ensures secondUnknownSequence == old(secondUnknownSequence)
    {
      root := TraverseRec(root);
    }

    /** getUnmarkedPeople: the names of the unflagged people in level order,
        collected with a queue into an array sized by the unflagged count. */
    method GetUnmarkedPeople() returns (unmarkedPeople: array<string>)
      ensures fresh(unmarkedPeople)
      ensures unmarkedPeople.Length == CountMatching(root, false)
      ensures unmarkedPeople[..] == UnmarkedNames(LevelOrder(root))
    {
      var unmarkedCount := GetMatchingProfileCount(false);
      unmarkedPeople := new string[unmarkedCount];
      var index := 0;
      var top := root;
      ghost var h := Height(top);
      var queue: seq<Tree> := [];
      if top != Leaf {
        queue := [top];
      }
      ghost var all := UnmarkedNames(LevelOrder(top));
      ghost var done: seq<string> := [];
      LevelOrderLength(top);
      CollectStart(top);
      while queue != []
        invariant Collecting(done, queue, h, all)
        invariant index == |done| <= |all| == unmarkedPeople.Length
        invariant forall j :: 0 <= j < index ==> unmarkedPeople[j] == done[j]
        decreases ForestSize(queue)
      {
        var node := queue[0];
        CollectStep(done, queue, h, all);
        queue := queue[1..];
        if !node.profile.marked {
          unmarkedPeople[index] := node.name;
          index := index + 1;
          done := done + [node.name];
        }
        QueueAppendChildren(queue, node);
        if node.left != Leaf {
          queue := queue + [node.left];
        }
        if node.right != Leaf {
          queue := queue + [node.right];
        }
      }
      CollectEnd(done, h, all);
    }

    /** removePerson: deletes the node with the given name. When the root
        itself goes, the root is replaced; otherwise the root node stays and
        the deletion relinks the nodes below it. */
    method RemovePerson(fullName: string)
      requires root.Node?
      modifies this
      ensures root == Delete(old(root), fullName)
      ensures old(root).name != fullName ==>
        root.Node? && root.name == old(root).name && root.profile == old(root).profile
      ensures firstUnknownSequence == old(firstUnknownSequence)
      ensures secondUnknownSequence == old(secondUnknownSequence)
    {
      if root.name == fullName {
        root := Delete(root, fullName);
      } else {
        var kept := Delete(root, fullName);
        root := kept;
      }
    }

    /** cleanupTree: removes every person left unflagged, one name of the
        level-order list after the other; the flagged people stay, each with
        their profile, and the tree keeps its order. */
    method CleanupTree()
      requires Ordered(root)
      modifies this
      ensures Ordered(root)
      ensures Contents(root) == KeepMarked(old(Contents(root)))
      ensures CountMatching(root, false) == 0
      ensures firstUnknownSequence == old(firstUnknownSequence)
      ensures secondUnknownSequence == old(secondUnknownSequence)
    {
      ghost var t0 := root;
      var unmarked := GetUnmarkedPeople();
      ghost var s := unmarked[..];
      CleanupStart(t0, s);
      var i := 0;
      while i < unmarked.Length
        invariant unmarked.Length == |s| && unmarked[..] == s
        invariant CleanedUpTo(t0, s, i, root)
        invariant firstUnknownSequence == old(firstUnknownSequence)
        invariant secondUnknownSequence == old(secondUnknownSequence)
      {
        var name := unmarked[i];
        assert name == s[i];
        CleanupStep(t0, s, i, root);
        RemovePerson(name);
        i := i + 1;
      }
      CleanupResult(t0, s, root);
    }
  }
}
