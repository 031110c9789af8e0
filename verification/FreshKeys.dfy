/** Choosing a key that is not taken: the base itself, or the base with the first free number. */
module FreshKeys {
  import opened Text

  /** Candidate 0 is the base; candidate n is the base, a separator and n. */
  function Candidate(base: Text, separator: Text, n: nat): Text {
    if n == 0 then base else base + separator + Decimal(n)
  }

  lemma CandidatesDiffer(base: Text, separator: Text, a: nat, b: nat)
    requires |separator| > 0 && !IsDigit(separator[|separator| - 1])
    requires Candidate(base, separator, a) == Candidate(base, separator, b)
    ensures a == b
  {
    if a > 0 && b > 0 {
      SuffixSplitsOnce(base, base, separator, a, b);
    } else {
      assert |base + separator + Decimal(a)| > |base| && |base + separator + Decimal(b)| > |base|;
    }
  }

  /** The search ends: the candidates are all different and only finitely many keys are taken. */
  method FreshKey(base: Text, separator: Text, taken: set<Text>) returns (key: Text, n: nat)
    requires |separator| > 0 && !IsDigit(separator[|separator| - 1])
    ensures key == Candidate(base, separator, n) && key !in taken
    ensures forall k: nat :: k < n ==> Candidate(base, separator, k) in taken
  {
    key, n := base, 0;
    ghost var tried: set<Text> := {};
    while key in taken
      invariant key == Candidate(base, separator, n)
      invariant forall k: nat :: k < n ==> Candidate(base, separator, k) in taken
      invariant forall t :: t in tried ==> t in taken && exists k: nat :: k < n && t == Candidate(base, separator, k)
      decreases taken - tried
    {
      if key in tried {
        var k: nat :| k < n && key == Candidate(base, separator, k);
        CandidatesDiffer(base, separator, k, n);
      }
      tried := tried + {key};
      n := n + 1;
      key := base + separator + Decimal(n);
    }
  }
}
