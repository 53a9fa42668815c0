/** Facts about sequences of distinct elements shared by the two queues. */
module Seqs {

  predicate Distinct<T(==)>(s: seq<T>) {
    forall a, b :: 0 <= a < b < |s| ==> s[a] != s[b]
  }

  /** Cutting position i out of a sequence of distinct elements keeps them
      distinct and removes exactly the element at i. */
  lemma RemoveAtDistinct<T>(s: seq<T>, i: nat)
    requires i < |s| && Distinct(s)
    ensures Distinct(s[..i] + s[i + 1..])
    ensures forall x :: x in s[..i] + s[i + 1..] <==> x in s && x != s[i]
  {
    var rest := s[..i] + s[i + 1..];
    forall a | 0 <= a < |rest|
      ensures rest[a] == s[if a < i then a else a + 1]
    {
    }
    forall x | x in s && x != s[i]
      ensures x in rest
    {
      var m :| 0 <= m < |s| && s[m] == x;
      assert rest[if m < i then m else m - 1] == x;
    }
  }
}
