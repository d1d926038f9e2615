/** Java's String.compareTo on sequences of characters, and the facts about it
    that the search tree relies on: it is zero exactly on equal strings, it is
    antisymmetric, and its negative part is a transitive relation. */
module StringOrder {

  /** String.compareTo: the difference of the first pair of characters that
      differ, or the difference of the lengths when one string is a prefix of
      the other. */
  function CompareTo(a: string, b: string): (c: int)
    ensures c == 0 <==> a == b
  {
    if a == [] || b == [] then |a| - |b|
    else if a[0] != b[0] then a[0] as int - b[0] as int
    else
      assert a == [a[0]] + a[1..] && b == [b[0]] + b[1..];
      CompareTo(a[1..], b[1..])
  }

  /** Swapping the arguments negates the result. */
  lemma {:induction false} CompareToAntisymmetric(a: string, b: string)
    ensures CompareTo(b, a) == -CompareTo(a, b)
  {
    if a != [] && b != [] && a[0] == b[0] {
      CompareToAntisymmetric(a[1..], b[1..]);
    }
  }

  /** "Compares below" is transitive. */
  lemma {:induction false} CompareToTransitive(a: string, b: string, c: string)
    requires CompareTo(a, b) < 0 && CompareTo(b, c) < 0
    ensures CompareTo(a, c) < 0
  {
    if a != [] && b != [] && c != [] && a[0] == b[0] && b[0] == c[0] {
      CompareToTransitive(a[1..], b[1..], c[1..]);
    }
  }

  /** A name below b and a name above b compare in that order. */
  lemma BelowAndAbove(a: string, b: string, c: string)
    requires CompareTo(a, b) < 0 && CompareTo(c, b) > 0
    ensures CompareTo(a, c) < 0 && CompareTo(c, a) > 0
  {
    CompareToAntisymmetric(c, b);
    CompareToTransitive(a, b, c);
    CompareToAntisymmetric(a, c);
  }
}
