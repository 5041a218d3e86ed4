/** Lists through links: what the head and each link hold when they spell out a sequence of ids,
    `nil` standing for the end, and sequences without repetition. */
module Lists {
  import Sorting

  function First(s: seq<nat>, nil: int): int {
    if s == [] then nil else s[0]
  }

  function Next(s: seq<nat>, i: nat, nil: int): int
    requires i < |s|
  {
    if i + 1 < |s| then s[i + 1] else nil
  }

  lemma DistinctTail(s: seq<nat>)
    requires Sorting.Distinct(s) && s != []
    ensures Sorting.Distinct(s[1..]) && s[0] !in s[1..] && forall x :: x in s <==> x == s[0] || x in s[1..]
  {
    assert s == [s[0]] + s[1..];
  }

  lemma DistinctCons(x: nat, s: seq<nat>)
    requires Sorting.Distinct(s) && x !in s
    ensures Sorting.Distinct([x] + s) && Sorting.Distinct<nat>([])
  {
  }

  lemma DistinctApart(s: seq<nat>, i: nat, j: nat)
    requires Sorting.Distinct(s) && i < |s| && j < |s| && i != j
    ensures s[i] != s[j]
  {
  }
}
