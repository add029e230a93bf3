// File identifiers: the first of base, base-2, base-3, ... that is not in use.
module ArtifactFileIds {
  import opened Prelude

  function Digit(n: nat): char
    requires n < 10
  {
    "0123456789"[n]
  }

  function Decimal(n: nat): (s: string)
    ensures s != []
  {
    if n < 10 then [Digit(n)] else Decimal(n / 10) + [Digit(n % 10)]
  }

  function Candidate(base: string, suffix: nat): string {
    base + "-" + Decimal(suffix)
  }

  lemma {:induction false} DecimalInjective(a: nat, b: nat)
    requires Decimal(a) == Decimal(b)
    ensures a == b
  {
    var s, t := Decimal(a), Decimal(b);
    if a < 10 || b < 10 {
      assert |s| == |t|;
      assert s[|s| - 1] == Digit(a % 10) && t[|t| - 1] == Digit(b % 10);
    } else {
      assert s[..|s| - 1] == Decimal(a / 10) && t[..|t| - 1] == Decimal(b / 10);
      assert s[|s| - 1] == Digit(a % 10) && t[|t| - 1] == Digit(b % 10);
      DecimalInjective(a / 10, b / 10);
    }
  }

  lemma CandidatesDiffer(base: string, a: nat, b: nat)
    requires Candidate(base, a) == Candidate(base, b)
    ensures a == b
  {
    var skip := |base| + 1;
    assert Candidate(base, a)[skip..] == Decimal(a) && Candidate(base, b)[skip..] == Decimal(b);
    DecimalInjective(a, b);
  }

  function Tried(base: string, suffix: nat): set<string> {
    set s: nat | 2 <= s < suffix :: Candidate(base, s)
  }

  // No two suffixes collide, so every failed attempt uses up one identifier.
  lemma {:induction false} TriedCounts(base: string, suffix: nat)
    requires suffix >= 2
    ensures |Tried(base, suffix)| == suffix - 2
  {
    if suffix == 2 {
      assert Tried(base, 2) == {};
    } else {
      TriedCounts(base, suffix - 1);
      forall s: nat | 2 <= s < suffix - 1
        ensures Candidate(base, s) != Candidate(base, suffix - 1)
      {
        if Candidate(base, s) == Candidate(base, suffix - 1) {
          CandidatesDiffer(base, s, suffix - 1);
        }
      }
      assert Tried(base, suffix) == Tried(base, suffix - 1) + {Candidate(base, suffix - 1)};
    }
  }

  method BuildFileId(base: string, used: set<string>) returns (id: string)
    ensures id !in used
    ensures base !in used ==> id == base
    ensures base in used ==>
      exists suffix: nat :: 2 <= suffix <= |used| + 2 && id == Candidate(base, suffix) && Tried(base, suffix) <= used
  {
    id := base;
    var suffix := 2;
    TriedCounts(base, 2);
    while id in used
      invariant suffix >= 2 && Tried(base, suffix - 1) <= used
      invariant suffix == 2 ==> id == base
      invariant suffix > 2 ==> base in used && id == Candidate(base, suffix - 1)
      decreases |used| + 3 - suffix
    {
      if suffix > 2 {
        assert Tried(base, suffix) == Tried(base, suffix - 1) + {Candidate(base, suffix - 1)};
      }
      TriedCounts(base, suffix);
      SubsetSize(Tried(base, suffix), used);
      id := Candidate(base, suffix);
      suffix := suffix + 1;
    }
    if suffix > 2 {
      TriedCounts(base, suffix - 1);
      SubsetSize(Tried(base, suffix - 1), used);
    }
  }
}
