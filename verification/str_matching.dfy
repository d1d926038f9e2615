/** Short tandem repeat (STR) markers, profiles, and the matching rule that
    decides whether a profile is consistent with the two unknown sequences. */
module Matching {

  /** A marker: a repeat unit and the total number of occurrences expected
      across the two unknown sequences. */
  datatype STR = STR(unit: string, occurrences: int)

  /** A person's markers and the interest flag the matching pass may set. */
  datatype Profile = Profile(strs: seq<STR>, marked: bool)

  /** Every repeat unit is non-empty: the occurrence count only terminates
      for such units. */
  predicate UnitsNonEmpty(strs: seq<STR>)
  {
    forall i :: 0 <= i < |strs| ==> strs[i].unit != []
  }

  /** u occurs in s starting at index i. */
  predicate MatchesAt(s: string, u: string, i: int)
  {
    0 <= i && i + |u| <= |s| && forall j :: 0 <= j < |u| ==> s[i + j] == u[j]
  }

  /** String.indexOf(u, from) for a non-empty u: the first index at or after
      from where u occurs, or -1 when there is none. */
  function IndexOf(s: string, u: string, from: nat): (r: int)
    requires u != []
    ensures r == -1 || (from <= r && MatchesAt(s, u, r))
    decreases |s| - from
  {
    if from + |u| > |s| then -1
    else if MatchesAt(s, u, from) then from
    else IndexOf(s, u, from + 1)
  }

  /** IndexOf finds the first occurrence: there is none between from and the
      index it returns, and none at all at or after from when it returns -1. */
  lemma {:induction false} IndexOfFirst(s: string, u: string, from: nat, i: int)
    requires u != [] && from <= i
    requires IndexOf(s, u, from) == -1 || i < IndexOf(s, u, from)
    ensures !MatchesAt(s, u, i)
    decreases |s| - from
  {
    if from + |u| > |s| {
    } else if MatchesAt(s, u, from) {
    } else if i > from {
      IndexOfFirst(s, u, from + 1, i);
    }
  }

  /** The greedy left-to-right count of non-overlapping occurrences of u in s
      at or after index i: a match consumes its whole length before the scan
      goes on. An empty unit counts as 0 here; the source never returns for
      one. */
  function CountFrom(s: string, u: string, i: nat): nat
    decreases |s| - i
  {
    if u == [] || i + |u| > |s| then 0
    else if MatchesAt(s, u, i) then 1 + CountFrom(s, u, i + |u|)
    else CountFrom(s, u, i + 1)
  }

  /** The number of non-overlapping occurrences of u in the whole of s. */
  function Occurrences(s: string, u: string): nat
  {
    CountFrom(s, u, 0)
  }

  /** Counting from any start index: none if IndexOf finds nothing, otherwise
      the match it finds plus those after the end of that match. */
  lemma {:induction false} CountFromIndexOf(s: string, u: string, from: nat)
    requires u != []
    ensures var k := IndexOf(s, u, from);
      CountFrom(s, u, from) == if k == -1 then 0 else 1 + CountFrom(s, u, k + |u|)
    decreases |s| - from
  {
    if from + |u| > |s| {
    } else if MatchesAt(s, u, from) {
    } else {
      CountFromIndexOf(s, u, from + 1);
    }
  }

  /** Occurrences never overlap: together they fit in what is left of the
      sequence. */
  lemma {:induction false} CountFromFits(s: string, u: string, i: nat)
    requires i <= |s|
    ensures CountFrom(s, u, i) * |u| <= |s| - i
    decreases |s| - i
  {
    if u == [] || i + |u| > |s| {
    } else if MatchesAt(s, u, i) {
      CountFromFits(s, u, i + |u|);
    } else {
      CountFromFits(s, u, i + 1);
    }
  }

  /** A unit longer than the sequence never occurs (the early return of the
      source). */
  lemma OccurrencesShort(s: string, u: string)
    requires |u| > |s|
    ensures Occurrences(s, u) == 0
  {
  }

  /** Non-overlapping: "AA" occurs twice in "AAAA", not three times. */
  lemma NonOverlappingExample()
    ensures Occurrences("AAAA", "AA") == 2
  {
    var s := "AAAA";
    assert s[0..2] == "AA" && s[2..4] == "AA";
  }

  /** numberOfOccurrences: counts matches by repeated indexOf calls, each
      starting just past the previous match. */
  method NumberOfOccurrences(sequence: string, str: string) returns (repeats: nat)
    requires str != []
    ensures repeats == Occurrences(sequence, str)
  {
    repeats := 0;
    if |str| > |sequence| {
      return 0;
    }
    var lastOccurrence := IndexOf(sequence, str, 0);
    CountFromIndexOf(sequence, str, 0);
    while lastOccurrence != -1
      invariant lastOccurrence == -1 ==> repeats == Occurrences(sequence, str)
      invariant lastOccurrence != -1 ==>
        && 0 <= lastOccurrence && lastOccurrence + |str| <= |sequence|
        && repeats + 1 + CountFrom(sequence, str, lastOccurrence + |str|)
           == Occurrences(sequence, str)
      decreases if lastOccurrence == -1 then 0 else |sequence| + 1 - lastOccurrence
    {
      repeats := repeats + 1;
      CountFromIndexOf(sequence, str, lastOccurrence + |str|);
      lastOccurrence := IndexOf(sequence, str, lastOccurrence + |str|);
    }
  }

  /** A marker is satisfied when its unit's occurrences in the two sequences
      add up to the expected number. */
  predicate Satisfied(m: STR, s1: string, s2: string)
  {
    Occurrences(s1, m.unit) + Occurrences(s2, m.unit) == m.occurrences
  }

  /** The number of satisfied markers. */
  function SatisfiedCount(strs: seq<STR>, s1: string, s2: string): (count: nat)
    ensures count <= |strs|
  {
    if strs == [] then 0
    else
      var last := if Satisfied(strs[|strs| - 1], s1, s2) then 1 else 0;
      SatisfiedCount(strs[..|strs| - 1], s1, s2) + last
  }

  /** The source's majority threshold (n + 1) / 2 in integer division. */
  function Threshold(n: nat): nat
  {
    (n + 1) / 2
  }

  /** A profile is of interest when at least half of its markers, rounded up,
      are satisfied. */
  predicate OfInterest(strs: seq<STR>, s1: string, s2: string)
  {
    SatisfiedCount(strs, s1, s2) >= Threshold(|strs|)
  }

  /** The threshold is half the markers rounded up: a profile is of interest
      exactly when twice its satisfied markers reach the number of markers. */
  lemma OfInterestIsHalf(strs: seq<STR>, s1: string, s2: string)
    ensures OfInterest(strs, s1, s2) <==> 2 * SatisfiedCount(strs, s1, s2) >= |strs|
  {
  }

  /** With three markers, two satisfied suffice and one does not. */
  lemma ThresholdOfThree(strs: seq<STR>, s1: string, s2: string)
    requires |strs| == 3
    ensures SatisfiedCount(strs, s1, s2) == 2 ==> OfInterest(strs, s1, s2)
    ensures SatisfiedCount(strs, s1, s2) == 1 ==> !OfInterest(strs, s1, s2)
  {
  }

  /** A profile without markers has threshold 0, so it is always of interest. */
  lemma EmptyProfileOfInterest(s1: string, s2: string)
    ensures OfInterest([], s1, s2)
  {
  }

  /** The matching pass's effect on one profile: the flag is set when the
      profile is of interest and never cleared. */
  function Flag(p: Profile, s1: string, s2: string): (q: Profile)
    ensures q.strs == p.strs
    ensures q.marked <==> p.marked || OfInterest(p.strs, s1, s2)
  {
    if OfInterest(p.strs, s1, s2) then p.(marked := true) else p
  }

  /** "AAAG" occurs three times in the first sample sequence ... */
  lemma SampleFirstCount()
    ensures Occurrences("AAAGAAAGAAAGTTT", "AAAG") == 3
  {
    var u := "AAAG";
    var s1 := "AAAGAAAGAAAGTTT";
    assert MatchesAt(s1, u, 0) && MatchesAt(s1, u, 4) && MatchesAt(s1, u, 8);
    assert CountFrom(s1, u, 8) == 1;
  }

  /** ... and twice in the second, whose first four positions hold no match. */
  lemma SampleSecondCount()
    ensures Occurrences("AATGAAAGAAAGTTT", "AAAG") == 2
  {
    var u := "AAAG";
    var s2 := "AATGAAAGAAAGTTT";
    assert s2[0 + 2] != u[2] && s2[1 + 1] != u[1] && s2[2 + 0] != u[0] && s2[3 + 0] != u[0];
    assert !MatchesAt(s2, u, 0) && !MatchesAt(s2, u, 1);
    assert !MatchesAt(s2, u, 2) && !MatchesAt(s2, u, 3);
    assert MatchesAt(s2, u, 4) && MatchesAt(s2, u, 8);
    assert CountFrom(s2, u, 8) == 1;
    assert CountFrom(s2, u, 2) == 2;
  }

  /** One marker "AAAG" expecting 5 against the two sample sequences: 3 + 2
      occurrences, so the marker is satisfied, the threshold is 1 and the
      profile is flagged. */
  lemma SampleProfileFlagged()
    ensures Flag(Profile([STR("AAAG", 5)], false),
                 "AAAGAAAGAAAGTTT", "AATGAAAGAAAGTTT").marked
  {
    SampleFirstCount();
    SampleSecondCount();
    var strs := [STR("AAAG", 5)];
    assert strs[..0] == [];
    assert SatisfiedCount(strs, "AAAGAAAGAAAGTTT", "AATGAAAGAAAGTTT") == 1;
  }
}
