/** The choice among the actions of a rule: the hash of a packet picks one by weight. */
module Actions {
  import opened Basics
  import opened Words

  const WORD: nat := 0x1_0000_0000

  ghost predicate AllWords(weights: seq<nat>) {
    forall i :: 0 <= i < |weights| ==> weights[i] < WORD
  }

  /** The sum of the first `n` weights. */
  function Before(weights: seq<nat>, n: nat): nat
    requires n <= |weights|
  {
    if n == 0 then 0 else Before(weights, n - 1) + weights[n - 1]
  }

  function Sum(weights: seq<nat>): nat {
    Before(weights, |weights|)
  }

  /** The total is kept in a 32-bit word. */
  function Total(weights: seq<nat>): (r: nat)
    ensures r < WORD && r <= Sum(weights)
  {
    Sum(weights) % WORD
  }

  /** Adds an action and sums up all weights again. */
  method AddWeight(weights: seq<nat>, weight: nat) returns (weights': seq<nat>, total: nat)
    requires AllWords(weights) && weight < WORD
    ensures weights' == weights + [weight] && AllWords(weights') && total == Total(weights')
  {
    weights' := weights + [weight];
    total := 0;
    for i := 0 to |weights'|
      invariant total == Before(weights', i) % WORD
    {
      WrapsOnce(Before(weights', i), weights'[i]);
      total := (total + weights'[i]) % WORD;
    }
  }

  lemma WrapsOnce(a: nat, b: nat)
    ensures (a % WORD + b) % WORD == (a + b) % WORD
  {
    var x := a % WORD + b;
    Remainder(a + b, WORD, x / WORD + a / WORD, x % WORD);
  }

  /** `i` is the action in whose part of the line the number falls. */
  ghost predicate FallsOn(weights: seq<nat>, x: nat, i: nat) {
    i < |weights| && Before(weights, i) <= x < Before(weights, i + 1)
  }

  lemma {:induction false} BeforeGrows(weights: seq<nat>, i: nat, j: nat)
    requires i <= j <= |weights|
    ensures Before(weights, i) <= Before(weights, j)
  {
    if i < j {
      BeforeGrows(weights, i, j - 1);
    }
  }

  /** A number falls on one action at most. */
  lemma FallsOnOne(weights: seq<nat>, x: nat, i: nat, j: nat)
    requires FallsOn(weights, x, i) && FallsOn(weights, x, j)
    ensures i == j
  {
    if i < j {
      BeforeGrows(weights, i + 1, j);
    } else if j < i {
      BeforeGrows(weights, j + 1, i);
    }
  }

  /** What the choice is: a single action always, otherwise the action that the hash falls on
      after reduction by the total, and nothing when that is zero. */
  ghost predicate Chooses(weights: seq<nat>, hash: nat, r: Option<nat>) {
    if |weights| == 1 then r == Some(0)
    else if Total(weights) == 0 then r == None
    else r.Some? && FallsOn(weights, hash % Total(weights), r.value)
  }

  /** The loop always ends at an action, so the abort behind it is never reached. */
  method ChooseOrNull(weights: seq<nat>, total: nat, hash: nat) returns (r: Option<nat>)
    requires total == Total(weights)
    ensures Chooses(weights, hash, r)
  {
    hide Before;
    if |weights| == 1 {
      return Some(0);
    }
    if total == 0 {
      return None;
    }
    var left: nat, i := hash % total, 0;
    assert left < total;
    BeforeStep(weights, 0);
    while i < |weights|
      invariant i <= |weights| && hash % total == Before(weights, i) + left
    {
      BeforeStep(weights, i);
      var weight := weights[i];
      if left < weight {
        return Some(i);
      }
      left, i := left - weight, i + 1;
    }
    assert false;
  }

  lemma BeforeStep(weights: seq<nat>, i: nat)
    requires i <= |weights|
    ensures Before(weights, 0) == 0 && (i < |weights| ==> Before(weights, i + 1) == Before(weights, i) + weights[i])
  {
  }

  /** Equal hashes get equal answers. */
  lemma ChoiceIsStable(weights: seq<nat>, hash: nat, r: Option<nat>, r': Option<nat>)
    requires Chooses(weights, hash, r) && Chooses(weights, hash, r')
    ensures r == r'
  {
    hide FallsOn, Total;
    if |weights| != 1 && Total(weights) != 0 {
      FallsOnOne(weights, hash % Total(weights), r.value, r'.value);
    }
  }

  // ---------- shares ----------

  /** How many of the numbers below `n` fall on action `i`. */
  ghost function Share(weights: seq<nat>, i: nat, n: nat): nat {
    if n == 0 then 0 else Share(weights, i, n - 1) + if FallsOn(weights, n - 1, i) then 1 else 0
  }

  /** The part of action `i` that lies below `n`. */
  lemma {:induction false} ShareIs(weights: seq<nat>, i: nat, n: nat)
    requires i < |weights|
    ensures Share(weights, i, n) ==
      if n <= Before(weights, i) then 0
      else if n <= Before(weights, i + 1) then n - Before(weights, i)
      else weights[i]
  {
    hide Before;
    BeforeStep(weights, i);
    if n > 0 {
      ShareIs(weights, i, n - 1);
    }
  }

  /** Every action gets its weight out of the numbers that the reduction leaves. */
  ghost predicate Fair(weights: seq<nat>) {
    forall i: nat :: i < |weights| ==> Share(weights, i, Total(weights)) == weights[i]
  }

  lemma {:induction false} LastWithWeight(weights: seq<nat>, n: nat) returns (i: nat)
    requires n <= |weights| && Before(weights, n) > 0
    ensures i < n && weights[i] > 0 && Before(weights, i + 1) == Before(weights, n)
  {
    if weights[n - 1] > 0 {
      i := n - 1;
    } else {
      i := LastWithWeight(weights, n - 1);
    }
  }

  /** Traffic is spread by weight if and only if the sum of the weights fits into the word that
      holds it. */
  lemma FairIff(weights: seq<nat>)
    ensures Fair(weights) <==> Sum(weights) < WORD
  {
    hide Share, Before;
    if Sum(weights) < WORD {
      forall i: nat | i < |weights| ensures Share(weights, i, Total(weights)) == weights[i] {
        ShareIs(weights, i, Total(weights));
        BeforeStep(weights, i);
        BeforeGrows(weights, i + 1, |weights|);
      }
    } else {
      var i := LastWithWeight(weights, |weights|);
      ShareIs(weights, i, Total(weights));
      BeforeStep(weights, i);
    }
  }

  /** Two weights of 2^31: their sum wraps to zero, and no hash chooses an action. */
  lemma HalvesChooseNothing(hash: nat, r: Option<nat>)
    requires Chooses([0x8000_0000, 0x8000_0000], hash, r)
    ensures r == None && !Fair([0x8000_0000, 0x8000_0000])
  {
    var weights: seq<nat> := [0x8000_0000, 0x8000_0000];
    assert Before(weights, 1) == 0x8000_0000;
    assert Sum(weights) == WORD;
    FairIff(weights);
  }
}
