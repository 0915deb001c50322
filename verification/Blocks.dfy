/** Sequences of block numbers. */
module Blocks {

  ghost predicate NoRepeats(chain: seq<nat>) {
    forall i, j :: 0 <= i < j < |chain| ==> chain[i] != chain[j]
  }

  lemma NoRepeatsPrefix(chain: seq<nat>, n: nat)
    requires n <= |chain| && NoRepeats(chain)
    ensures NoRepeats(chain[..n])
  {
  }

  lemma NoRepeatsAppend(chain: seq<nat>, block: nat)
    requires NoRepeats(chain) && block !in chain
    ensures NoRepeats(chain + [block])
  {
  }

  lemma NoRepeatsReverse(chain: seq<nat>, back: seq<nat>)
    requires NoRepeats(chain) && |back| == |chain|
    requires forall n :: 0 <= n < |chain| ==> back[n] == chain[|chain| - 1 - n]
    ensures NoRepeats(back)
  {
  }

  // A sequence without repeats is no longer than any set it is taken from,
  lemma {:induction false} NoRepeatsFits(chain: seq<nat>, from: set<nat>)
    requires NoRepeats(chain) && forall b :: b in chain ==> b in from
    ensures |chain| <= |from|
  {
    if chain != [] {
      var last := chain[|chain| - 1];
      NoRepeatsFits(chain[..|chain| - 1], from - {last});
    }
  }

  // and a sequence that holds a whole set is at least as long.
  lemma {:induction false} HoldingAllFits(chain: seq<nat>, all: set<nat>)
    requires forall b :: b in all ==> b in chain
    ensures |all| <= |chain|
  {
    if chain == [] {
      assert all == {};
    } else {
      var last := chain[|chain| - 1];
      HoldingAllFits(chain[..|chain| - 1], all - {last});
    }
  }
}
