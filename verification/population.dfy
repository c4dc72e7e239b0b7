/**
 * The population of src/population.rs: a vector of decks, a parallel vector of their
 * ratings, per-generation statistics and the best individual seen so far.
 *
 * Decks are held as values (`Decks.Entries`): the source owns them by value and copies
 * them with `clone`. Ratings are reals; `rate` itself is not modelled, so a cycle receives
 * the ratings of its decks. Child production (`mix` then `mutate`) is the parameter `breed`,
 * applied to the selected parent and the slot being filled. Draws of the random number
 * generator are passed in.
 */
module Population {
  import Generics
  import Decks

  type Deck = Decks.Entries

  /** The threshold of `cull`: `threshold + annealing * generation`, capped at `thresholdCap`. */
  function CullThreshold(threshold: real, annealing: real, thresholdCap: real, generation: nat): (t: real)
    ensures t <= thresholdCap && t <= threshold + annealing * generation as real
    ensures t == thresholdCap || t == threshold + annealing * generation as real
  {
    var raised := threshold + annealing * generation as real;
    if raised > thresholdCap then thresholdCap else raised
  }

  /** The entries of `xs` whose rating in the aligned `rs` is at least `t`, in order. */
  function Keep<T>(xs: seq<T>, rs: seq<real>, t: real): (kept: seq<T>)
    requires |xs| == |rs|
    ensures |kept| <= |xs|
  {
    if xs == [] then []
    else
      var n := |xs| - 1;
      Keep(xs[..n], rs[..n], t) + (if rs[n] < t then [] else [xs[n]])
  }

  function Indices(n: nat): (ix: seq<nat>)
    ensures |ix| == n && forall i :: 0 <= i < n ==> ix[i] == i
  {
    seq(n, i => i)
  }

  /** The original positions of the entries that survive a cull at `t`. */
  function Kept(rs: seq<real>, t: real): seq<nat>
  {
    Keep(Indices(|rs|), rs, t)
  }

  /** Surviving entry `k` is the entry at original position `Kept(rs, t)[k]`: the survivors
      of any vector aligned with `rs` line up with each other. */
  lemma {:induction false} KeepAt<T>(xs: seq<T>, rs: seq<real>, t: real)
    requires |xs| == |rs|
    ensures |Keep(xs, rs, t)| == |Kept(rs, t)|
    ensures forall k :: 0 <= k < |Kept(rs, t)| ==> Kept(rs, t)[k] < |xs| && Keep(xs, rs, t)[k] == xs[Kept(rs, t)[k]]
    decreases |xs|
  {
    if xs != [] {
      var n := |xs| - 1;
      KeepAt(xs[..n], rs[..n], t);
      assert Indices(|rs|)[..n] == Indices(n);
      assert Kept(rs, t) == Kept(rs[..n], t) + (if rs[n] < t then [] else [n]);
    }
  }

  /** The survivors' positions are increasing, all survivors are rated at least `t`, and
      every entry rated at least `t` survives. */
  lemma {:induction false} KeptExactly(rs: seq<real>, t: real)
    ensures forall k :: 0 <= k < |Kept(rs, t)| ==> Kept(rs, t)[k] < |rs| && t <= rs[Kept(rs, t)[k]]
    ensures forall k, l :: 0 <= k < l < |Kept(rs, t)| ==> Kept(rs, t)[k] < Kept(rs, t)[l]
    ensures forall i :: 0 <= i < |rs| && t <= rs[i] ==> i in Kept(rs, t)
    decreases |rs|
  {
    if rs != [] {
      var n := |rs| - 1;
      KeptExactly(rs[..n], t);
      assert Indices(|rs|)[..n] == Indices(n);
      assert Kept(rs, t) == Kept(rs[..n], t) + (if rs[n] < t then [] else [n]);
    }
  }

  /** After a cull at `t` every remaining rating is at least `t`. */
  lemma SurvivorsAboveThreshold(rs: seq<real>, t: real)
    ensures forall k :: 0 <= k < |Keep(rs, rs, t)| ==> t <= Keep(rs, rs, t)[k]
  {
    KeepAt(rs, rs, t);
    KeptExactly(rs, t);
  }

  lemma KeepSnoc<T>(xs: seq<T>, rs: seq<real>, t: real, j: nat)
    requires |xs| == |rs| && j < |xs|
    ensures Keep(xs[..j + 1], rs[..j + 1], t) == Keep(xs[..j], rs[..j], t) + (if rs[j] < t then [] else [xs[j]])
  {
    assert xs[..j + 1][..j] == xs[..j];
    assert rs[..j + 1][..j] == rs[..j];
  }

  /** `cur` is `xs` culled in place up to original position `j`, with the cursor at `idx`:
      the survivors of `xs[..j]` followed by the unscanned rest. */
  ghost predicate CulledTo<T>(cur: seq<T>, xs: seq<T>, rs: seq<real>, t: real, j: nat, idx: nat)
    requires |xs| == |rs|
  {
    && j <= |xs|
    && idx == |Keep(xs[..j], rs[..j], t)|
    && |cur| == idx + |xs| - j
    && cur == Keep(xs[..j], rs[..j], t) + xs[j..]
  }

  /** One step of the in-place cull: the entry under the cursor is `xs[j]`; removing it
      (rating below `t`) or moving past it leaves `xs` culled up to `j + 1`. */
  lemma CullStep<T>(cur: seq<T>, xs: seq<T>, rs: seq<real>, t: real, j: nat, idx: nat)
    requires |xs| == |rs| && j < |xs| && CulledTo(cur, xs, rs, t, j, idx)
    ensures idx < |cur| && cur[idx] == xs[j]
    ensures rs[j] < t ==> CulledTo(cur[..idx] + cur[idx + 1..], xs, rs, t, j + 1, idx)
    ensures t <= rs[j] ==> CulledTo(cur, xs, rs, t, j + 1, idx + 1)
  {
    var kept := Keep(xs[..j], rs[..j], t);
    KeepSnoc(xs, rs, t, j);
    assert cur[..idx] == kept;
    assert cur[idx + 1..] == xs[j + 1..];
    assert xs[j..] == [xs[j]] + xs[j + 1..];
    assert cur == (kept + [xs[j]]) + xs[j + 1..];
  }

  /** Culled up to the end is culled. */
  lemma CulledAll<T>(cur: seq<T>, xs: seq<T>, rs: seq<real>, t: real, idx: nat)
    requires |xs| == |rs| && CulledTo(cur, xs, rs, t, |xs|, idx)
    ensures cur == Keep(xs, rs, t)
  {
    assert xs[..|xs|] == xs && rs[..|rs|] == rs;
  }

  /** The loop of `cull`: walk a cursor over the two aligned vectors, removing the entry
      under it when its rating is below `t` and stepping past it otherwise. */
  method CullVectors(decks: seq<Deck>, ratings: seq<real>, t: real) returns (kept: seq<Deck>, keptRatings: seq<real>)
    requires |decks| == |ratings|
    ensures kept == Keep(decks, ratings, t)
    ensures keptRatings == Keep(ratings, ratings, t)
  {
    ghost var j := 0;
    kept, keptRatings := decks, ratings;
    var currentIdx := 0;
    assert decks[..0] == [] && ratings[..0] == [];
    while currentIdx < |kept|
      invariant j <= |decks| && |kept| == currentIdx + |decks| - j
      invariant CulledTo(kept, decks, ratings, t, j, currentIdx) && CulledTo(keptRatings, ratings, ratings, t, j, currentIdx)
      decreases |kept| - currentIdx
    {
      CullStep(kept, decks, ratings, t, j, currentIdx);
      CullStep(keptRatings, ratings, ratings, t, j, currentIdx);
      if keptRatings[currentIdx] < t {
        keptRatings := keptRatings[..currentIdx] + keptRatings[currentIdx + 1..];
        kept := kept[..currentIdx] + kept[currentIdx + 1..];
      } else {
        currentIdx := currentIdx + 1;
      }
      j := j + 1;
    }
    assert j == |decks|;
    CulledAll(kept, decks, ratings, t, currentIdx);
    CulledAll(keptRatings, ratings, ratings, t, currentIdx);
  }

  /** One draw of `select`: an index from [0, decks.len()) and a chance from [0, 1). */
  datatype Draw = Draw(individual: nat, chance: real)

  /** `chance < rating / maxRating` as f64 evaluates it: dividing by a zero maximum gives
      +inf for a positive rating (accepted) and NaN or -inf otherwise (rejected). */
  predicate Accepts(chance: real, rating: real, maxRating: real): (ok: bool)
    ensures 0.0 < maxRating ==> (ok <==> chance * maxRating < rating)
    ensures 0.0 <= chance && 0.0 <= maxRating && rating <= 0.0 ==> !ok
    ensures chance < 1.0 && 0.0 < rating == maxRating ==> ok
  {
    if maxRating == 0.0 then 0.0 < rating else chance < rating / maxRating
  }

  /** Every draw names an individual among `rs`. */
  predicate InRange(draws: seq<Draw>, rs: seq<real>)
  {
    forall k :: 0 <= k < |draws| ==> draws[k].individual < |rs|
  }

  /** Draw `u` is the first one `select` accepts. */
  predicate FirstAccepted(draws: seq<Draw>, rs: seq<real>, maxRating: real, u: nat)
    requires InRange(draws, rs)
  {
    && u < |draws|
    && Accepts(draws[u].chance, rs[draws[u].individual], maxRating)
    && forall k :: 0 <= k < u ==> !Accepts(draws[k].chance, rs[draws[k].individual], maxRating)
  }

  /** The draws end `select`'s loop: some draw is accepted (the source spins otherwise). */
  predicate Terminates(draws: seq<Draw>, rs: seq<real>, maxRating: real)
    requires InRange(draws, rs)
  {
    exists k :: 0 <= k < |draws| && Accepts(draws[k].chance, rs[draws[k].individual], maxRating)
  }

  /** Enough terminating draws to fill every slot of the next generation from `rs`. */
  predicate CanRefill(selections: seq<seq<Draw>>, rs: seq<real>, maxRating: real)
  {
    && Decks.POPULATION_SIZE <= |selections|
    && forall s :: 0 <= s < Decks.POPULATION_SIZE ==>
         InRange(selections[s], rs) && Terminates(selections[s], rs, maxRating)
  }

  class Population {
    var decks: seq<Deck>
    var ratings: seq<real>
    var generation: nat
    var minRating: real
    /** Maximum fitness in the current generation. */
    var maxRating: real
    /** Maximum fitness over the generations. */
    var bestRating: real
    var bestIndividual: Deck
    /** The three weights handed to `rate`, once set. */
    var fitnessArgs: seq<real>
    /** `threshold`, `annealing` and `threshold_cap` of the cull, once set. */
    var cullArgs: seq<real>
    /** `temperature`, `temperature_annealing` and `temperature_cap`, once set. */
    var mutationArgs: seq<nat>

    /** `from_random`: POPULATION_SIZE decks, each filled from its own draws. */
    constructor FromRandom(fills: seq<seq<nat>>)
      requires |fills| == Decks.POPULATION_SIZE
      ensures |decks| == Decks.POPULATION_SIZE
      ensures forall i :: 0 <= i < |decks| ==> decks[i] == Decks.FillWith(Decks.Empty, fills[i]) && decks[i].Valid()
      ensures ratings == [] && generation == 0
      ensures fitnessArgs == [] && cullArgs == [] && mutationArgs == []
      ensures minRating == 0.0 && maxRating == 0.0 && bestRating == 0.0
      ensures bestIndividual == Decks.Empty
    {
      var made: seq<Deck> := [];
      for i := 0 to Decks.POPULATION_SIZE
        invariant |made| == i
        invariant forall j :: 0 <= j < i ==> made[j] == Decks.FillWith(Decks.Empty, fills[j]) && made[j].Valid()
      {
        var deck := Decks.Deck.FromRandom(fills[i]);
        made := made + [deck.Value()];
      }
      decks := made;
      ratings := [];
      generation := 0;
      minRating, maxRating, bestRating := 0.0, 0.0, 0.0;
      bestIndividual := Decks.Empty;
      fitnessArgs, cullArgs, mutationArgs := [], [], [];
    }

    /** `set_fitness_args`. */
    method SetFitnessArgs(curveWeigh: real, tagsWeigh: real, consistencyWeigh: real)
      modifies this
      ensures fitnessArgs == [curveWeigh, tagsWeigh, consistencyWeigh]
      ensures cullArgs == old(cullArgs) && mutationArgs == old(mutationArgs)
      ensures decks == old(decks) && ratings == old(ratings) && generation == old(generation)
      ensures minRating == old(minRating) && maxRating == old(maxRating)
      ensures bestRating == old(bestRating) && bestIndividual == old(bestIndividual)
    {
      fitnessArgs := [curveWeigh, tagsWeigh, consistencyWeigh];
    }

    /** `set_cull_args`. */
    method SetCullArgs(threshold: real, annealing: real, thresholdCap: real)
      modifies this
      ensures cullArgs == [threshold, annealing, thresholdCap]
      ensures fitnessArgs == old(fitnessArgs) && mutationArgs == old(mutationArgs)
      ensures decks == old(decks) && ratings == old(ratings) && generation == old(generation)
      ensures minRating == old(minRating) && maxRating == old(maxRating)
      ensures bestRating == old(bestRating) && bestIndividual == old(bestIndividual)
    {
      cullArgs := [threshold, annealing, thresholdCap];
    }

    /** `set_mutation_args`. */
    method SetMutationArgs(temperature: nat, temperatureAnnealing: nat, temperatureCap: nat)
      modifies this
      ensures mutationArgs == [temperature, temperatureAnnealing, temperatureCap]
      ensures fitnessArgs == old(fitnessArgs) && cullArgs == old(cullArgs)
      ensures decks == old(decks) && ratings == old(ratings) && generation == old(generation)
      ensures minRating == old(minRating) && maxRating == old(maxRating)
      ensures bestRating == old(bestRating) && bestIndividual == old(bestIndividual)
    {
      mutationArgs := [temperature, temperatureAnnealing, temperatureCap];
    }

    /** `update_history`: count the generation, record the extremes of the ratings, and
        keep a copy of the first best-rated deck when it beats the best so far. */
    method UpdateHistory()
      requires ratings != [] && |ratings| <= |decks|
      modifies this
      ensures decks == old(decks) && ratings == old(ratings) && cullArgs == old(cullArgs)
      ensures fitnessArgs == old(fitnessArgs) && mutationArgs == old(mutationArgs)
      ensures generation == old(generation) + 1
      ensures minRating == Generics.SeqMin(ratings) && maxRating == Generics.SeqMax(ratings)
      ensures bestRating == if old(bestRating) < maxRating then maxRating else old(bestRating)
      ensures old(bestRating) <= bestRating
      ensures old(bestRating) < maxRating ==> bestIndividual == decks[Decks.Position(ratings, maxRating)]
      ensures !(old(bestRating) < maxRating) ==> bestIndividual == old(bestIndividual)
    {
      generation := generation + 1;
      minRating := Generics.Min(ratings);
      maxRating := Generics.Max(ratings);
      if maxRating > bestRating {
        bestRating := maxRating;
        bestIndividual := decks[Decks.Position(ratings, maxRating)];
      }
    }

    /** `cull`: drop, in place, every deck rated below the threshold and its rating. */
    method Cull(threshold: real, annealing: real, thresholdCap: real) returns (t: real)
      requires |ratings| == |decks|
      modifies this
      ensures t == CullThreshold(threshold, annealing, thresholdCap, old(generation))
      ensures decks == Keep(old(decks), old(ratings), t)
      ensures ratings == Keep(old(ratings), old(ratings), t)
      ensures generation == old(generation) && cullArgs == old(cullArgs)
      ensures fitnessArgs == old(fitnessArgs) && mutationArgs == old(mutationArgs)
      ensures minRating == old(minRating) && maxRating == old(maxRating)
      ensures bestRating == old(bestRating) && bestIndividual == old(bestIndividual)
    {
      t := threshold + annealing * generation as real;
      if t > thresholdCap {
        t := thresholdCap;
      }
      decks, ratings := CullVectors(decks, ratings, t);
    }

    /** `select`: draw until one is accepted, and hand back a copy of that deck. */
    method Select(draws: seq<Draw>) returns (parent: Deck, used: nat)
      requires |decks| <= |ratings|
      requires forall k :: 0 <= k < |draws| ==> draws[k].individual < |decks|
      requires Terminates(draws, ratings, maxRating)
      ensures FirstAccepted(draws, ratings, maxRating, used)
      ensures draws[used].individual < |decks| && parent == decks[draws[used].individual]
    {
      used := 0;
      while !Accepts(draws[used].chance, ratings[draws[used].individual], maxRating)
        invariant used < |draws|
        invariant forall k :: 0 <= k < used ==> !Accepts(draws[k].chance, ratings[draws[k].individual], maxRating)
        decreases |draws| - used
      {
        used := used + 1;
      }
      parent := decks[draws[used].individual];
    }

    /** The refill loop of `cycle`: one child per slot, bred from the deck `select` picks
        with that slot's draws. */
    method NextGeneration(breed: (Deck, nat) -> Deck, selections: seq<seq<Draw>>)
      returns (nextDecks: seq<Deck>, picks: seq<nat>)
      requires |decks| == |ratings|
      requires CanRefill(selections, ratings, maxRating)
      ensures |nextDecks| == |picks| == Decks.POPULATION_SIZE
      ensures forall s :: 0 <= s < Decks.POPULATION_SIZE ==>
        && FirstAccepted(selections[s], ratings, maxRating, picks[s])
        && nextDecks[s] == breed(decks[selections[s][picks[s]].individual], s)
    {
      nextDecks, picks := [], [];
      while |nextDecks| < Decks.POPULATION_SIZE
        invariant |nextDecks| == |picks| <= Decks.POPULATION_SIZE
        invariant forall s :: 0 <= s < |picks| ==>
          && FirstAccepted(selections[s], ratings, maxRating, picks[s])
          && nextDecks[s] == breed(decks[selections[s][picks[s]].individual], s)
      {
        var slot := |nextDecks|;
        var parent, used := Select(selections[slot]);
        picks := picks + [used];
        nextDecks := nextDecks + [breed(parent, slot)];
      }
    }

    /** `cycle`, given the ratings `rate` gives the current decks: update the history, cull,
        stop when fewer than two decks survive, otherwise replace the population by
        POPULATION_SIZE bred children. `ratings` keeps the survivors' ratings. */
    method Cycle(scores: seq<real>, breed: (Deck, nat) -> Deck, selections: seq<seq<Draw>>)
      returns (carryOn: bool, picks: seq<nat>)
      requires |scores| == |decks| && scores != []
      requires |cullArgs| >= 3
      requires var t := CullThreshold(cullArgs[0], cullArgs[1], cullArgs[2], generation + 1);
        2 <= |Keep(scores, scores, t)| ==> CanRefill(selections, Keep(scores, scores, t), Generics.SeqMax(scores))
      modifies this
      ensures generation == old(generation) + 1 && cullArgs == old(cullArgs)
      ensures fitnessArgs == old(fitnessArgs) && mutationArgs == old(mutationArgs)
      ensures minRating == Generics.SeqMin(scores) && maxRating == Generics.SeqMax(scores)
      ensures bestRating == if old(bestRating) < maxRating then maxRating else old(bestRating)
      ensures old(bestRating) < maxRating ==> bestIndividual == old(decks)[Decks.Position(scores, maxRating)]
      ensures !(old(bestRating) < maxRating) ==> bestIndividual == old(bestIndividual)
      ensures ratings == Keep(scores, scores, CullThreshold(cullArgs[0], cullArgs[1], cullArgs[2], generation))
      ensures |Keep(old(decks), scores, CullThreshold(cullArgs[0], cullArgs[1], cullArgs[2], generation))| == |ratings|
      ensures carryOn <==> 2 <= |ratings|
      ensures !carryOn ==> decks == Keep(old(decks), scores, CullThreshold(cullArgs[0], cullArgs[1], cullArgs[2], generation))
      ensures carryOn ==> |decks| == |picks| == Decks.POPULATION_SIZE && CanRefill(selections, ratings, maxRating)
      ensures carryOn ==> forall s :: 0 <= s < Decks.POPULATION_SIZE ==>
        && FirstAccepted(selections[s], ratings, maxRating, picks[s])
        && decks[s] == breed(Keep(old(decks), scores, CullThreshold(cullArgs[0], cullArgs[1], cullArgs[2], generation))[selections[s][picks[s]].individual], s)
    {
      ratings := scores;
      UpdateHistory();
      var cullThreshold := Cull(cullArgs[0], cullArgs[1], cullArgs[2]);
      KeepAt(scores, scores, cullThreshold);
      KeepAt(old(decks), scores, cullThreshold);
      if |decks| < 2 {
        carryOn, picks := false, [];
        return;
      }
      var nextDecks;
      nextDecks, picks := NextGeneration(breed, selections);
      decks := nextDecks;
      carryOn := true;
    }
  }
}
