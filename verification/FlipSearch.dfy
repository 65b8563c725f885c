/** The bounded flip search both repair paths run: every choice of up to `maxFlips` suspects, fewest flips first. */
module FlipSearch {
  import opened Common
  import opened Sorting

  /** itertools.combinations over the indices start..n-1, in its order. */
  function Combinations(n: nat, k: nat, start: nat): seq<seq<nat>>
    decreases n - start, k
  {
    if k == 0 then [[]]
    else if start >= n then []
    else Prepend(start, Combinations(n, k - 1, start + 1)) + Combinations(n, k, start + 1)
  }

  function Prepend(x: nat, cs: seq<seq<nat>>): (r: seq<seq<nat>>)
    ensures |r| == |cs| && forall i :: 0 <= i < |r| ==> r[i] == [x] + cs[i]
  {
    seq(|cs|, i requires 0 <= i < |cs| => [x] + cs[i])
  }

  ghost predicate Increasing(c: seq<nat>, start: nat, n: nat) {
    (forall i :: 0 <= i < |c| ==> start <= c[i] < n) && forall i, j :: 0 <= i < j < |c| ==> c[i] < c[j]
  }

  lemma InPrepend(x: nat, cs: seq<seq<nat>>, c: seq<nat>)
    ensures c in Prepend(x, cs) <==> c != [] && c[0] == x && c[1..] in cs
  {
    if c != [] && c[0] == x && c[1..] in cs {
      var i :| 0 <= i < |cs| && cs[i] == c[1..];
      assert Prepend(x, cs)[i] == c;
    }
  }

  lemma IncreasingSplits(c: seq<nat>, start: nat, n: nat)
    requires start < n && c != []
    ensures Increasing(c, start, n) <==>
            (c[0] == start && Increasing(c[1..], start + 1, n)) || Increasing(c, start + 1, n)
  {
    if c[0] == start && Increasing(c[1..], start + 1, n) {
      assert forall i :: 0 < i < |c| ==> c[i] == c[1..][i - 1];
    }
  }

  lemma CombinationsSplit(n: nat, k: nat, start: nat, c: seq<nat>)
    requires k > 0 && start < n
    ensures c in Combinations(n, k, start) <==>
            (c != [] && c[0] == start && c[1..] in Combinations(n, k - 1, start + 1)) || c in Combinations(n, k, start + 1)
  {
    InPrepend(start, Combinations(n, k - 1, start + 1), c);
    hide Prepend;
  }

  /** The combinations are exactly the increasing choices of k indices. */
  lemma {:induction false} CombinationsExact(n: nat, k: nat, start: nat, c: seq<nat>)
    ensures c in Combinations(n, k, start) <==> |c| == k && Increasing(c, start, n)
    decreases n - start, k
  {
    hide Increasing, Combinations;
    if k == 0 || start >= n {
      CombinationsBase(n, k, start, c);
    } else {
      CombinationsExact(n, k, start + 1, c);
      CombinationsSplit(n, k, start, c);
      if c != [] {
        CombinationsExact(n, k - 1, start + 1, c[1..]);
        IncreasingSplits(c, start, n);
      }
    }
  }

  lemma CombinationsBase(n: nat, k: nat, start: nat, c: seq<nat>)
    requires k == 0 || start >= n
    ensures c in Combinations(n, k, start) <==> |c| == k && Increasing(c, start, n)
  {
    if k == 0 {
      assert Combinations(n, k, start) == [[]];
      assert c == [] <==> |c| == 0;
    } else if c != [] {
      assert !(start <= c[0] < n);
    }
  }

  /** All choices of 1 to `most` of n indices, fewest first. */
  function ChoicesUpTo(n: nat, most: nat): seq<seq<nat>> {
    if most == 0 then [] else ChoicesUpTo(n, most - 1) + Combinations(n, most, 0)
  }

  /** `values` with each listed position toggled once per mention. */
  function Flip(values: Bits, at: seq<nat>): (r: Bits)
    ensures |r| == |values|
  {
    seq(|values|, i requires 0 <= i < |values| => values[i] != (multiset(at)[i] % 2 == 1))
  }

  function FlipSet(values: Bits, at: set<nat>): (r: Bits)
    ensures |r| == |values|
  {
    seq(|values|, i requires 0 <= i < |values| => values[i] != (i in at))
  }

  function Chosen(suspects: seq<nat>, choice: seq<nat>): (r: seq<nat>)
    requires InRange(choice, |suspects|)
    ensures |r| == |choice|
  {
    seq(|choice|, i requires 0 <= i < |choice| => suspects[choice[i]])
  }

  predicate InRange(choice: seq<nat>, n: nat) {
    forall i :: 0 <= i < |choice| ==> choice[i] < n
  }

  datatype Hit = Hit(bits: Bits, flips: nat)

  /** The first accepted choice. */
  function FirstHit(values: Bits, suspects: seq<nat>, choices: seq<seq<nat>>, accept: Bits -> bool): Option<Hit>
    requires forall i :: 0 <= i < |choices| ==> InRange(choices[i], |suspects|)
  {
    if choices == [] then None
    else
      var trial := Flip(values, Chosen(suspects, choices[0]));
      if accept(trial) then Some(Hit(trial, |choices[0]|)) else FirstHit(values, suspects, choices[1..], accept)
  }

  lemma {:induction false} ChoicesInRange(n: nat, most: nat)
    ensures forall i :: 0 <= i < |ChoicesUpTo(n, most)| ==>
              InRange(ChoicesUpTo(n, most)[i], n) && 1 <= |ChoicesUpTo(n, most)[i]| <= most
  {
    if most > 0 {
      ChoicesInRange(n, most - 1);
      forall i | 0 <= i < |Combinations(n, most, 0)|
        ensures InRange(Combinations(n, most, 0)[i], n) && |Combinations(n, most, 0)[i]| == most
      {
        CombinationsExact(n, most, 0, Combinations(n, most, 0)[i]);
      }
    }
  }

  /** The search over every choice of 1 to `maxFlips` suspects. */
  function Search(values: Bits, suspects: seq<nat>, maxFlips: nat, accept: Bits -> bool): Option<Hit> {
    ChoicesInRange(|suspects|, maxFlips);
    FirstHit(values, suspects, ChoicesUpTo(|suspects|, maxFlips), accept)
  }

  // ------------------------------------------------------------------ the loop

  lemma {:induction false} FirstHitAppend(values: Bits, suspects: seq<nat>, a: seq<seq<nat>>, b: seq<seq<nat>>, accept: Bits -> bool)
    requires forall i :: 0 <= i < |a + b| ==> InRange((a + b)[i], |suspects|)
    requires forall i :: 0 <= i < |a| ==> InRange(a[i], |suspects|)
    requires forall i :: 0 <= i < |b| ==> InRange(b[i], |suspects|)
    ensures FirstHit(values, suspects, a + b, accept)
         == if FirstHit(values, suspects, a, accept).Some? then FirstHit(values, suspects, a, accept)
            else FirstHit(values, suspects, b, accept)
  {
    hide Flip, InRange;
    if a == [] {
      assert a + b == b;
    } else {
      assert (a + b)[1..] == a[1..] + b;
      assert (a + b)[0] == a[0];
      FirstHitAppend(values, suspects, a[1..], b, accept);
    }
  }

  lemma CombosInRange(n: nat, k: nat)
    ensures forall j :: 0 <= j < |Combinations(n, k, 0)| ==>
              InRange(Combinations(n, k, 0)[j], n) && |Combinations(n, k, 0)[j]| == k
  {
    forall j | 0 <= j < |Combinations(n, k, 0)|
      ensures InRange(Combinations(n, k, 0)[j], n) && |Combinations(n, k, 0)[j]| == k
    {
      CombinationsExact(n, k, 0, Combinations(n, k, 0)[j]);
    }
  }

  lemma OneMore(values: Bits, suspects: seq<nat>, combos: seq<seq<nat>>, j: nat, accept: Bits -> bool)
    requires forall i :: 0 <= i < |combos| ==> InRange(combos[i], |suspects|)
    requires j < |combos| && FirstHit(values, suspects, combos[..j], accept).None?
    ensures var trial := Flip(values, Chosen(suspects, combos[j]));
            FirstHit(values, suspects, combos[..j + 1], accept)
            == if accept(trial) then Some(Hit(trial, |combos[j]|)) else None
  {
    hide Flip, Chosen, InRange;
    assert combos[..j + 1] == combos[..j] + [combos[j]];
    FirstHitAppend(values, suspects, combos[..j], [combos[j]], accept);
  }

  lemma SearchStep(values: Bits, suspects: seq<nat>, k: nat, accept: Bits -> bool)
    requires k >= 1
    requires forall j :: 0 <= j < |Combinations(|suspects|, k, 0)| ==> InRange(Combinations(|suspects|, k, 0)[j], |suspects|)
    ensures Search(values, suspects, k, accept)
         == if Search(values, suspects, k - 1, accept).Some? then Search(values, suspects, k - 1, accept)
            else FirstHit(values, suspects, Combinations(|suspects|, k, 0), accept)
  {
    hide FirstHit, Combinations, InRange;
    ChoicesInRange(|suspects|, k);
    ChoicesInRange(|suspects|, k - 1);
    FirstHitAppend(values, suspects, ChoicesUpTo(|suspects|, k - 1), Combinations(|suspects|, k, 0), accept);
  }

  lemma {:induction false} SearchGrows(values: Bits, suspects: seq<nat>, k: nat, most: nat, accept: Bits -> bool)
    requires k <= most && Search(values, suspects, k, accept).Some?
    ensures Search(values, suspects, most, accept) == Search(values, suspects, k, accept)
  {
    hide Search;
    if k < most {
      SearchGrows(values, suspects, k, most - 1, accept);
      CombosInRange(|suspects|, most);
      SearchStep(values, suspects, most, accept);
    }
  }

  lemma ToggleOnce(values: Bits, at: seq<nat>, p: nat)
    requires p < |values|
    ensures Flip(values, at + [p]) == Flip(values, at)[p := !Flip(values, at)[p]]
  {
  }

  lemma FlipTwice(values: Bits, at: seq<nat>)
    ensures Flip(values, at + at) == values && Flip(values, []) == values
  {
    forall i | 0 <= i < |values| ensures Flip(values, at + at)[i] == values[i] {
      assert multiset(at + at)[i] == 2 * multiset(at)[i];
    }
  }

  /** Toggle every listed position of `trial`, one after the other. */
  method Toggle(trial: array<bool>, at: seq<nat>, ghost values: Bits, ghost before: seq<nat>)
    requires |values| == trial.Length && trial[..] == Flip(values, before)
    requires forall i :: 0 <= i < |at| ==> at[i] < trial.Length
    modifies trial
    ensures trial[..] == Flip(values, before + at)
  {
    hide Flip;
    assert before + at[..0] == before;
    for j := 0 to |at|
      invariant trial[..] == Flip(values, before + at[..j])
    {
      ToggleOnce(values, before + at[..j], at[j]);
      assert before + at[..j + 1] == before + at[..j] + [at[j]];
      trial[at[j]] := !trial[at[j]];
    }
    assert at[..|at|] == at;
  }

  /** The nested loops of both repair paths. Every combination tried leaves `trial` as it found it. */
  method FindHit(trial: array<bool>, suspects: seq<nat>, maxFlips: nat, accept: Bits -> bool) returns (hit: Option<Hit>)
    requires forall i :: 0 <= i < |suspects| ==> suspects[i] < trial.Length
    modifies trial
    ensures trial[..] == old(trial[..])
    ensures hit == Search(old(trial[..]), suspects, maxFlips, accept)
  {
    hide Flip, Combinations, FirstHit, InRange, Search;
    ghost var values := trial[..];
    var n := |suspects|;
    NoChoices(values, suspects, accept);
    for k := 1 to maxFlips + 1
      invariant trial[..] == values
      invariant Search(values, suspects, k - 1, accept).None?
    {
      var combos := Combinations(n, k, 0);
      CombosInRange(n, k);
      SearchStep(values, suspects, k, accept);
      assert combos[..0] == [];
      for j := 0 to |combos|
        invariant trial[..] == values
        invariant FirstHit(values, suspects, combos[..j], accept).None?
      {
        var at := Chosen(suspects, combos[j]);
        ChosenInside(suspects, combos[j]);
        FlipTwice(values, at);
        OneMore(values, suspects, combos, j, accept);
        Toggle(trial, at, values, []);
        assert [] + at == at;
        var candidate := trial[..];
        Toggle(trial, at, values, at);
        if accept(candidate) {
          ghost var rest := combos[j + 1..];
          assert combos == combos[..j + 1] + rest;
          FirstHitAppend(values, suspects, combos[..j + 1], rest, accept);
          SearchGrows(values, suspects, k, maxFlips, accept);
          return Some(Hit(candidate, k));
        }
      }
      assert combos[..|combos|] == combos;
    }
    hit := None;
  }

  lemma NoChoices(values: Bits, suspects: seq<nat>, accept: Bits -> bool)
    ensures Search(values, suspects, 0, accept).None? && FirstHit(values, suspects, [], accept).None?
  {
  }

  lemma ChosenInside(suspects: seq<nat>, choice: seq<nat>)
    requires InRange(choice, |suspects|)
    ensures forall i :: 0 <= i < |choice| ==> Chosen(suspects, choice)[i] in suspects
  {
  }

  // ------------------------------------------------------------------ what the search finds

  ghost function Elements(xs: seq<nat>): set<nat> { set x | x in xs }

  lemma {:induction false} DistinctCard(xs: seq<nat>)
    requires Distinct(xs)
    ensures |Elements(xs)| == |xs|
  {
    if xs != [] {
      DistinctCard(xs[1..]);
      assert Elements(xs) == {xs[0]} + Elements(xs[1..]);
      assert xs[0] !in xs[1..];
    }
  }

  /** An increasing choice flips the set of its positions. */
  lemma ChoiceIsSet(values: Bits, suspects: seq<nat>, choice: seq<nat>)
    requires Distinct(suspects) && Increasing(choice, 0, |suspects|)
    ensures InRange(choice, |suspects|)
    ensures var at := Chosen(suspects, choice);
            Flip(values, at) == FlipSet(values, Elements(at)) && |Elements(at)| == |choice| &&
            Elements(at) <= Elements(suspects)
  {
    var at := Chosen(suspects, choice);
    assert Distinct(at);
    DistinctCard(at);
    DistinctMultiset(at);
    var mentions: multiset<nat> := multiset(at);
    forall i: nat | i < |values| ensures (mentions[i] % 2 == 1) == (i in Elements(at)) {
      assert i in mentions <==> i in at;
      assert mentions[i] <= 1;
    }
  }

  /** The indices from `start` on whose suspect is in `wanted`. */
  ghost function Pick(suspects: seq<nat>, wanted: set<nat>, start: nat): seq<nat>
    decreases |suspects| - start
  {
    if start >= |suspects| then []
    else (if suspects[start] in wanted then [start] else []) + Pick(suspects, wanted, start + 1)
  }

  lemma {:induction false} PickIncreasing(suspects: seq<nat>, wanted: set<nat>, start: nat)
    ensures Increasing(Pick(suspects, wanted, start), start, |suspects|)
    ensures forall i :: start <= i < |suspects| && suspects[i] in wanted ==> i in Pick(suspects, wanted, start)
    ensures forall i :: i in Pick(suspects, wanted, start) ==> i < |suspects| && suspects[i] in wanted
    decreases |suspects| - start
  {
    if start < |suspects| {
      PickIncreasing(suspects, wanted, start + 1);
      var c := Pick(suspects, wanted, start);
      if suspects[start] in wanted {
        assert c[1..] == Pick(suspects, wanted, start + 1);
        IncreasingSplits(c, start, |suspects|);
      }
    }
  }

  /** Every set of suspects is one of the choices tried. */
  lemma SetIsChoice(suspects: seq<nat>, wanted: set<nat>) returns (choice: seq<nat>)
    requires Distinct(suspects) && wanted <= Elements(suspects)
    ensures Increasing(choice, 0, |suspects|) && InRange(choice, |suspects|)
    ensures Elements(Chosen(suspects, choice)) == wanted && |choice| == |wanted|
  {
    choice := Pick(suspects, wanted, 0);
    PickIncreasing(suspects, wanted, 0);
    var at := Chosen(suspects, choice);
    forall x ensures x in Elements(at) <==> x in wanted {
      if x in at {
        var i :| 0 <= i < |at| && at[i] == x;
        assert choice[i] in choice;
      }
      if x in wanted {
        var i :| 0 <= i < |suspects| && suspects[i] == x;
        var j :| 0 <= j < |choice| && choice[j] == i;
        assert at[j] == x;
      }
    }
    assert Elements(at) == wanted;
    ChoiceIsSet([], suspects, choice);
  }

  lemma {:induction false} ChoicesExact(n: nat, most: nat, c: seq<nat>)
    ensures c in ChoicesUpTo(n, most) <==> 1 <= |c| <= most && Increasing(c, 0, n)
  {
    hide Increasing, Combinations;
    if most > 0 {
      ChoicesExact(n, most - 1, c);
      CombinationsExact(n, most, 0, c);
    }
  }

  lemma {:induction false} ChoicesByLength(n: nat, most: nat)
    ensures forall i, j :: 0 <= i < j < |ChoicesUpTo(n, most)| ==> |ChoicesUpTo(n, most)[i]| <= |ChoicesUpTo(n, most)[j]|
  {
    if most > 0 {
      ChoicesByLength(n, most - 1);
      ChoicesInRange(n, most - 1);
      CombosInRange(n, most);
    }
  }

  ghost predicate Accepted(values: Bits, suspects: seq<nat>, choice: seq<nat>, accept: Bits -> bool)
    requires InRange(choice, |suspects|)
  {
    accept(Flip(values, Chosen(suspects, choice)))
  }

  lemma {:induction false} FirstHitIsFirst(values: Bits, suspects: seq<nat>, choices: seq<seq<nat>>, accept: Bits -> bool) returns (at: nat)
    requires forall i :: 0 <= i < |choices| ==> InRange(choices[i], |suspects|)
    ensures at <= |choices|
    ensures forall i :: 0 <= i < at ==> !Accepted(values, suspects, choices[i], accept)
    ensures FirstHit(values, suspects, choices, accept)
         == if at == |choices| then None else Some(Hit(Flip(values, Chosen(suspects, choices[at])), |choices[at]|))
    ensures at < |choices| ==> Accepted(values, suspects, choices[at], accept)
  {
    hide InRange, Flip, Chosen;
    at := 0;
    if choices != [] && !Accepted(values, suspects, choices[0], accept) {
      var rest := FirstHitIsFirst(values, suspects, choices[1..], accept);
      at := rest + 1;
      assert forall i :: 1 <= i < |choices| ==> choices[i] == choices[1..][i - 1];
    }
  }

  /** A set of at most `most` suspects whose flip is accepted. */
  ghost predicate Repairs(values: Bits, suspects: seq<nat>, most: nat, accept: Bits -> bool, at: set<nat>) {
    at <= Elements(suspects) && 1 <= |at| <= most && accept(FlipSet(values, at))
  }

  /** Soundness, completeness and minimality of the search over sets of suspects. */
  lemma SearchExact(values: Bits, suspects: seq<nat>, most: nat, accept: Bits -> bool) returns (found: set<nat>)
    requires Distinct(suspects)
    ensures Search(values, suspects, most, accept).Some? <==> exists at :: Repairs(values, suspects, most, accept, at)
    ensures forall hit :: Search(values, suspects, most, accept) == Some(hit) ==>
              Repairs(values, suspects, most, accept, found) && hit == Hit(FlipSet(values, found), |found|) &&
              forall at :: Repairs(values, suspects, most, accept, at) ==> |found| <= |at|
  {
    var choices := ChoicesUpTo(|suspects|, most);
    ChoicesInRange(|suspects|, most);
    ChoicesByLength(|suspects|, most);
    var k := FirstHitIsFirst(values, suspects, choices, accept);
    forall at | Repairs(values, suspects, most, accept, at)
      ensures k < |choices| && |choices[k]| <= |at|
    {
      RepairIsTried(values, suspects, most, accept, at, k);
    }
    found := {};
    if k < |choices| {
      ChoicesExact(|suspects|, most, choices[k]);
      ChoiceIsSet(values, suspects, choices[k]);
      found := Elements(Chosen(suspects, choices[k]));
      assert Repairs(values, suspects, most, accept, found);
    }
  }

  lemma RepairIsTried(values: Bits, suspects: seq<nat>, most: nat, accept: Bits -> bool, at: set<nat>, k: nat)
    requires Distinct(suspects) && Repairs(values, suspects, most, accept, at)
    requires forall i :: 0 <= i < |ChoicesUpTo(|suspects|, most)| ==> InRange(ChoicesUpTo(|suspects|, most)[i], |suspects|)
    requires forall i :: 0 <= i < k && i < |ChoicesUpTo(|suspects|, most)| ==>
               !Accepted(values, suspects, ChoicesUpTo(|suspects|, most)[i], accept)
    ensures k < |ChoicesUpTo(|suspects|, most)| && |ChoicesUpTo(|suspects|, most)[k]| <= |at|
  {
    hide Increasing, Flip, FlipSet, Chosen, Elements, Distinct, InRange;
    var choices := ChoicesUpTo(|suspects|, most);
    ChoicesByLength(|suspects|, most);
    var c := SetIsChoice(suspects, at);
    ChoiceIsSet(values, suspects, c);
    ChoicesExact(|suspects|, most, c);
    var i :| 0 <= i < |choices| && choices[i] == c;
    assert Accepted(values, suspects, choices[i], accept);
  }
}
