# Forensic analysis registry — a Dafny model

`ForensicAnalysis` keeps a registry of genetic profiles in an unbalanced binary
search tree keyed by a person's full name. Each profile holds a list of short
tandem repeat (STR) markers. A marker is a repeat unit and the total number of
times the unit is expected to occur across two unknown DNA sequences. The
registry can:

- insert a person at the leaf its name routes to (greater names go right;
  equal and smaller names go left);
- count the profiles by interest flag;
- count the non-overlapping occurrences of a repeat unit in a sequence;
- flag every profile for which at least half of the markers, rounded up,
  match the two sequences;
- list the unflagged people in level order;
- remove a person by name, where a node with two children takes its in-order
  successor's place;
- clean up the tree by removing every unflagged person.

The model is split into these modules:

- **`StringOrder`** defines Java's `String.compareTo` on `seq<char>`. It proves
  that `compareTo` is zero exactly on equal strings, that it is
  antisymmetric, and that "below" is transitive.
- **`Matching`** holds the markers and profiles and the repeat count.
  - `IndexOf` is `String.indexOf` on strings.
  - `CountFrom` and `Occurrences` give the greedy non-overlapping count.
  - `NumberOfOccurrences` is a loop proved equal to that count.
  - `Flag` sets the interest flag when `SatisfiedCount` reaches the threshold
    `(n + 1) / 2`.
- **`ProfileTree`** defines the tree as a value and its abstract views:
  - `Keys`, the set of names;
  - `Bag`, the stored (name, profile) pairs;
  - `Contents`, the name-to-profile map;
  - `UnmarkedBag`, the unflagged names.

  It also defines the search orders and the count by flag (`traverseBST`).
  `SearchOrdered` is the order insertion keeps even with duplicate names.
  `Ordered` is the strict order with distinct names.
- **`TreeInsert`** models insertPerson's placement rule as a function.
- **`TreeDelete`** models `min`, `deleteMin` and `delete` as functions on trees.
- **`Flagging`** models the flag pass over a whole tree.
- **`Levels`** defines level order level by level. It proves that the queue
  traversal of getUnmarkedPeople produces exactly that order.
- **`Forensic`** holds the class `ForensicAnalysis` with the fields `root`,
  `firstUnknownSequence` and `secondUnknownSequence`, and one method per
  public operation.
  - `InsertPerson`, `GetUnmarkedPeople`, `TraverseRec` and `CleanupTree` keep
    the source's loops, each with its invariants.
  - Each method's postcondition ties the new state or the result to the
    functions above.

The source's tree allows duplicate names: an equal name is routed left and
stored again. Without them, insertion keeps `Ordered`. The properties of
deletion and of cleanup are proved for trees without duplicates (`Ordered`).

## Model

| member | source | states |
|---|---|---|
| StringOrder.CompareTo | src/forensic/ForensicAnalysis.java:64 | compareTo is zero exactly when the two names are equal |
| StringOrder.CompareToAntisymmetric | src/forensic/ForensicAnalysis.java:231-238 | swapping the names negates compareTo, so a name that is below another sends that other one the opposite way |
| StringOrder.CompareToTransitive | src/forensic/ForensicAnalysis.java:64-71 | if a is below b and b is below c, then a is below c |
| Matching.IndexOf | src/forensic/ForensicAnalysis.java:120 | indexOf returns -1 or an index at or after the start where the unit occurs |
| Matching.IndexOfFirst | src/forensic/ForensicAnalysis.java:126 | the unit occurs nowhere between the start and the index indexOf returns, and nowhere after the start when it returns -1 |
| Matching.CountFromIndexOf | src/forensic/ForensicAnalysis.java:122-128 | counting from a start index gives 0 when indexOf finds nothing, and otherwise 1 plus the count from the end of the match found |
| Matching.CountFromFits | src/forensic/ForensicAnalysis.java:126 | occurrences never overlap: their number times the unit's length fits in what is left of the sequence |
| Matching.OccurrencesShort | src/forensic/ForensicAnalysis.java:116-117 | a unit longer than the sequence occurs 0 times |
| Matching.NonOverlappingExample | src/forensic/ForensicAnalysis.java:126 | "AA" occurs twice in "AAAA", not three times |
| Matching.NumberOfOccurrences | src/forensic/ForensicAnalysis.java:112-130 | the loop of repeated indexOf calls returns exactly the greedy non-overlapping count of the unit |
| Matching.SatisfiedCount | src/forensic/ForensicAnalysis.java:147-156 | at most one count per marker: the result never exceeds the number of markers |
| Matching.OfInterestIsHalf | src/forensic/ForensicAnalysis.java:157 | reaching (n + 1) / 2 means that twice the satisfied markers reach n |
| Matching.ThresholdOfThree | src/forensic/ForensicAnalysis.java:157 | with three markers, two satisfied markers flag the profile and one does not |
| Matching.EmptyProfileOfInterest | src/forensic/ForensicAnalysis.java:157 | a profile without markers has threshold 0 and is always of interest |
| Matching.Flag | src/forensic/ForensicAnalysis.java:157-159 | the markers are kept; the flag afterwards is set exactly when it was set before or the profile is of interest |
| Matching.SampleFirstCount | src/forensic/ForensicAnalysis.java:120-128 | "AAAG" occurs 3 times in "AAAGAAAGAAAGTTT" |
| Matching.SampleSecondCount | src/forensic/ForensicAnalysis.java:120-128 | "AAAG" occurs 2 times in "AATGAAAGAAAGTTT" |
| Matching.SampleProfileFlagged | src/forensic/ForensicAnalysis.java:145-159 | a profile with one marker "AAAG" expecting 5 is flagged against these two sequences |
| ProfileTree.OrderedDistinct | src/forensic/ForensicAnalysis.java:62-72 | the strict search order rules out duplicate names |
| ProfileTree.InOrderKeys | src/forensic/ForensicAnalysis.java:62-72 | an in-order walk visits exactly the stored names |
| ProfileTree.InOrderSorted | src/forensic/ForensicAnalysis.java:62-72 | an Ordered tree lists its names in strictly increasing compareTo order |
| ProfileTree.CountMatching | src/forensic/ForensicAnalysis.java:94-110 | traverseBST's count never exceeds the number of nodes |
| ProfileTree.CountMatchingPartition | src/forensic/ForensicAnalysis.java:88-110 | the flagged count plus the unflagged count is the number of nodes |
| ProfileTree.UnmarkedBagOnce | src/forensic/ForensicAnalysis.java:174-179 | with distinct names, each name is among the unflagged names at most once |
| ProfileTree.UnmarkedBagMember | src/forensic/ForensicAnalysis.java:174-179 | with distinct names, a name is among the unflagged names exactly when it is stored with an unflagged profile |
| ProfileTree.AllMarkedCountsNone | src/forensic/ForensicAnalysis.java:101-110 | if every stored profile is flagged, the unflagged count is 0 |
| TreeInsert.Insert | src/forensic/ForensicAnalysis.java:75-85 | after insertion the tree is never empty |
| TreeInsert.InsertKeys | src/forensic/ForensicAnalysis.java:62-85 | insertion adds the new name and keeps every other name |
| TreeInsert.InsertBag | src/forensic/ForensicAnalysis.java:62-85 | insertion adds exactly the new (name, profile) pair and loses no stored pair, duplicates included |
| TreeInsert.InsertSize | src/forensic/ForensicAnalysis.java:75-85 | insertion adds exactly one node |
| TreeInsert.InsertEqualGoesLeft | src/forensic/ForensicAnalysis.java:64-71 | an equal name is routed into the left subtree |
| TreeInsert.InsertSearchOrdered | src/forensic/ForensicAnalysis.java:62-85 | insertion keeps the search order, duplicate names included |
| TreeInsert.InsertOrdered | src/forensic/ForensicAnalysis.java:62-85 | inserting a name not yet stored keeps the strict order |
| TreeInsert.InsertDistinct | src/forensic/ForensicAnalysis.java:62-85 | inserting a name not yet stored keeps the names distinct |
| TreeInsert.InsertContents | src/forensic/ForensicAnalysis.java:62-85 | inserting a new name maps it to the new profile and leaves every other entry as it was |
| TreeDelete.Min | src/forensic/ForensicAnalysis.java:202-211 | min returns a stored node that has no left child |
| TreeDelete.DeleteMin | src/forensic/ForensicAnalysis.java:214-222 | deleteMin adds no name |
| TreeDelete.Delete | src/forensic/ForensicAnalysis.java:225-255 | delete adds no name |
| TreeDelete.MinContents | src/forensic/ForensicAnalysis.java:202-211 | with distinct names, min's profile is the one stored under its name |
| TreeDelete.MinIsLeast | src/forensic/ForensicAnalysis.java:202-211 | in an Ordered tree, every other stored name compares above min's name |
| TreeDelete.DeleteMinOrdered | src/forensic/ForensicAnalysis.java:214-222 | deleteMin keeps the strict order |
| TreeDelete.DeleteMinContents | src/forensic/ForensicAnalysis.java:214-222 | deleteMin removes exactly min's entry |
| TreeDelete.DeleteAbsent | src/forensic/ForensicAnalysis.java:225-238 | deleting a name that is not stored leaves the tree unchanged |
| TreeDelete.DeleteOrdered | src/forensic/ForensicAnalysis.java:225-255 | delete keeps the strict order, including when the in-order successor replaces a node with two children |
| TreeDelete.DeleteContents | src/forensic/ForensicAnalysis.java:225-255 | delete removes exactly the given name's entry and keeps every other (name, profile) pair |
| TreeDelete.DeleteStep | src/forensic/ForensicAnalysis.java:231-238 | a descent into the subtree the name routes to removes the name's entry from the whole tree |
| TreeDelete.DeleteOneChildContents | src/forensic/ForensicAnalysis.java:240-245 | a matching node with at most one child is replaced by that child, and only its entry is lost |
| TreeDelete.DeleteSuccessorContents | src/forensic/ForensicAnalysis.java:247-252 | a matching node with two children gives way to its successor, and only its entry is lost |
| Flagging.FlagTree | src/forensic/ForensicAnalysis.java:138-162 | the flag pass keeps the tree's shape, names, markers and size |
| Flagging.FlagTreeContents | src/forensic/ForensicAnalysis.java:138-162 | after the pass, each name maps to its old profile passed through Flag |
| Flagging.FlagTreeIdempotent | src/forensic/ForensicAnalysis.java:132-162 | running the flag pass twice gives the same tree as running it once |
| Flagging.FlagTreeOrdered | src/forensic/ForensicAnalysis.java:132-162 | the flag pass keeps the strict order |
| Flagging.FlagTreeDistinct | src/forensic/ForensicAnalysis.java:132-162 | the flag pass keeps the names distinct |
| Flagging.FlagTreeWellFormed | src/forensic/ForensicAnalysis.java:132-162 | the flag pass keeps every repeat unit non-empty |
| Flagging.FlagTreeUnmarkedShrinks | src/forensic/ForensicAnalysis.java:157-158 | flags are only ever set: the unflagged names after the pass are among those before it, and their count does not grow |
| Flagging.FlagTreeUnmarked | src/forensic/ForensicAnalysis.java:145-158 | with distinct names, a person is unflagged after the pass exactly when they were unflagged before and their profile is not of interest |
| Levels.SweepStep | src/forensic/ForensicAnalysis.java:176-184 | dequeuing a node and enqueuing its children leaves the level order of the queue unchanged after that node |
| Levels.QueueStep | src/forensic/ForensicAnalysis.java:174-185 | one round of the queue loop: the front node comes first in the level order, its name heads the unflagged names when it is unflagged, and the new queue is smaller |
| Levels.CollectStart | src/forensic/ForensicAnalysis.java:170-172 | the queue that holds only the root, or nothing when there is no root, starts the traversal of the whole level order |
| Levels.CollectStep | src/forensic/ForensicAnalysis.java:174-185 | one round keeps "names collected + names still to come = whole list" and shrinks the queue |
| Levels.CollectEnd | src/forensic/ForensicAnalysis.java:174 | once the queue is empty, every name has been collected |
| Levels.LevelOrderBag | src/forensic/ForensicAnalysis.java:164-188 | the level order lists every unflagged name of the tree, each as often as it is stored |
| Levels.LevelOrderLength | src/forensic/ForensicAnalysis.java:166-167 | the array sized by the unflagged count fits the level-order list exactly |
| Forensic.QueueAppendChildren | src/forensic/ForensicAnalysis.java:181-184 | enqueuing the left child and then the right child, each when present, appends the node's children |
| Forensic.UnmarkedList | src/forensic/ForensicAnalysis.java:164-188 | with distinct names, the level-order list of unflagged names holds every unflagged person exactly once and nobody else |
| Forensic.NextUnmarked | src/forensic/ForensicAnalysis.java:259-263 | the next name cleanupTree removes is still stored in the original tree and has not come up before |
| Forensic.RemoveListed | src/forensic/ForensicAnalysis.java:263 | removing a name that is still stored keeps the order, and drops exactly that name |
| Forensic.CleanupStep | src/forensic/ForensicAnalysis.java:261-266 | each round of cleanupTree's loop finds a non-empty tree and removes exactly the next listed name |
| Forensic.CleanupResult | src/forensic/ForensicAnalysis.java:257-268 | once every listed name is removed, the tree is Ordered, exactly the flagged entries remain, and no unflagged node is left |
| Forensic.ForensicAnalysis.constructor | src/forensic/ForensicAnalysis.java:8-12 | the registry starts empty, holding the two unknown sequences |
| Forensic.ForensicAnalysis.InsertPerson | src/forensic/ForensicAnalysis.java:56-86 | the descent loop links the new node exactly where Insert puts it, and the sequences are unchanged |
| Forensic.ForensicAnalysis.GetMatchingProfileCount | src/forensic/ForensicAnalysis.java:88-91 | the count for one flag value plus the count for the other is the number of people |
| Forensic.ForensicAnalysis.TraverseRec | src/forensic/ForensicAnalysis.java:138-162 | the marker-counting loop and the recursion produce exactly the flag pass over the subtree |
| Forensic.ForensicAnalysis.FlagProfilesOfInterest | src/forensic/ForensicAnalysis.java:132-135 | the root becomes the flag pass over the old tree, and the sequences are unchanged |
| Forensic.ForensicAnalysis.GetUnmarkedPeople | src/forensic/ForensicAnalysis.java:164-188 | a fresh array whose length is the unflagged count, holding the unflagged names in level order |
| Forensic.ForensicAnalysis.RemovePerson | src/forensic/ForensicAnalysis.java:190-199 | the tree becomes the old tree minus the given name; when the root's name is another one, the root node stays |
| Forensic.ForensicAnalysis.CleanupTree | src/forensic/ForensicAnalysis.java:257-268 | the tree stays Ordered, keeps exactly the flagged entries and has no unflagged node left |

## Left out

- `buildTree` and `createSingleProfile` (lines 14-54) read a file through `StdIn`. They are I/O and are not modelled. The constructor takes the two unknown sequences that buildTree reads at lines 18-21. The source's constructor sets them to null.
- The getters and setters (lines 270-292) are not modelled. `setTreeRoot` could install a tree that breaks the search order.
- Null values are not modelled: null profiles (the checks at lines 101 and 177), null nodes in the queue (lines 177-184) and null sequences. Every node has a profile and both sequences are strings.
- `TreeNode` object identity is not modelled. The tree is a value, and the in-place relinking by `setLeft`/`setRight` in insertPerson, delete and deleteMin is modelled by rebuilding the path to the change. Two nodes sharing one `Profile` object, and so one flag, is not modelled either.
- Forensic.ForensicAnalysis.TraverseRec returns the flagged tree instead of setting each profile's flag in place. FlagProfilesOfInterest stores that tree as the new root.
- The library `Queue` is a sequence used first in, first out.
- Java's `String.compareTo` works on UTF-16 code units and `String.indexOf` on Java strings. The model compares Dafny characters by their code and searches a `seq<char>`.
- Java `int` arithmetic is not modelled: counts are unbounded naturals. No count can exceed the number of nodes or the length of a sequence.
- Matching.NumberOfOccurrences: requires a non-empty repeat unit. For an empty unit, `indexOf("", k)` returns `k` and the source's loop never ends.
- Forensic.ForensicAnalysis.TraverseRec: requires every repeat unit in the subtree to be non-empty (`MarkersWellFormed`), for the same reason. FlagProfilesOfInterest requires the same of the whole tree.
- Forensic.ForensicAnalysis.RemovePerson: requires a non-empty tree, because the source reads the root's name at line 192 without a null check.
- Forensic.ForensicAnalysis.CleanupTree: requires an `Ordered` tree, that is, distinct names. With duplicate names, which insertPerson allows, the removal of one copy of a name is not modelled.
- Delete, DeleteOrdered and DeleteContents are proved for `Ordered` trees, that is, distinct names. Deletion from a tree with duplicate names is not modelled.
