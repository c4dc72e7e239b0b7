# shadowbuilder core in Dafny

A model of the deterministic core of shadowbuilder, a genetic-algorithm deck builder for a
collectible card game, with proofs of the properties the code relies on.

- `decks.dfy` (module `Decks`): a deck is a capped multiset. It is stored as two parallel
  vectors, card indices and copy counts. The model covers `add`, `remove_random`,
  `random_fill`, `mutate`, `mix` (single-point crossover over copy groups), the pp-cost curve
  and the base-64 encoder of deck links. `Deck` is a class whose methods update the two
  vectors. Each method is proved equal to a function on the value `Entries`, and the
  properties are proved about those functions.
- `population.dfy` (module `Population`) models the population:
  - threshold culling, in place, over two aligned vectors;
  - per-generation statistics and the best-ever tracker;
  - roulette selection by stochastic acceptance;
  - the collapse-or-refill step of `cycle`.
- `generics.dfy` (module `Generics`): string reversal and the minimum and maximum scans.
- `context.dfy` (module `Context`) models the run-time context:
  - the craft table and the catalog filter;
  - the card-id vector and its six successive sorts;
  - the tag choice loop;
  - `idx_to_card`.
- `tagger.dfy` (module `Tagger`): the rule-based auto-tagger of the card catalog.
- `catalog.dfy` (module `Catalog`): the card record shared by the context and the tagger.

The random number generator, user input and hash-map iteration order become parameters:

- a draw sequence for `random_fill`;
- a roll for `remove_random` and a crossover point for `mix`;
- one sequence of (individual, chance) draws per slot for `select`;
- the answers to the prompts;
- the order in which a map yields its keys.

Ratings are reals. The cost of a card is a function `cost: nat -> nat`. A card's catalog entry
is a `Catalog.Card`.

## Model

| member | source | states |
|---|---|---|
| Generics.Invert | src/generics.rs:4-6 | the reversal is as long as the input, and its character i is the input's character len-1-i |
| Generics.InvertInvolutive | src/generics.rs:4-6 | reversing twice gives the string back |
| Generics.InvertSnoc | src/generics.rs:4-6 | reversing `s + [c]` gives `c` followed by the reversal of `s` |
| Generics.SeqMin | src/generics.rs:72-78 | the minimum of a non-empty slice is one of its elements and is at most every element |
| Generics.SeqMax | src/generics.rs:86-92 | the maximum of a non-empty slice is one of its elements and is at least every element |
| Generics.Min | src/generics.rs:72-78 | the running-minimum loop (which needs a first element) returns the minimum: an element, at most every element |
| Generics.Max | src/generics.rs:86-92 | the running-maximum loop returns the maximum: an element, at least every element |
| Generics.MinAtMostMax | src/generics.rs:72-92 | on a non-empty slice, min <= max |
| Decks.MinNat | src/deck.rs:79 | the smaller of the two arguments |
| Decks.SumBounds | src/deck.rs:47 | counts that each lie in [1, 3] sum to between their number and three times it |
| Decks.Position | src/deck.rs:41 | `iter().position`: the first position holding the value, or the length when it is absent (also used for the best deck in src/population.rs) |
| Decks.Bucket | src/deck.rs:52-55 | cost 0 goes to bucket 0, a cost above 8 to bucket 7, any other cost c to bucket c-1; always below 8 |
| Decks.Entries.Copies | src/deck.rs:40-45 | an absent card has 0 copies |
| Decks.SizeBounds | src/deck.rs:47 | `current_size` of a valid deck lies between its number of entries and three times it, and is 0 exactly for the empty deck |
| Decks.CopiesAt | src/deck.rs:40-45 | under the encoding's invariant, the copies of the card at position i are counts[i] |
| Decks.CopiesPresent | src/deck.rs:40-45 | under the invariant, copies are 0 exactly when the card is absent, and never exceed MAX_CARD_COPIES |
| Decks.Entries.Add | src/deck.rs:76-87 | the two vectors stay the same length |
| Decks.AddValid | src/deck.rs:76-87 | `add` keeps the invariant (no duplicate card, counts in [1, 3]) and never moves or drops an existing card |
| Decks.AddCopies | src/deck.rs:76-87 | the added card goes to min(3, old + 1) copies; every other card keeps its copies |
| Decks.AddSize | src/deck.rs:79-85 | the size grows by 1 below the cap and by 0 at the cap |
| Decks.AddAtCap | src/deck.rs:79-85 | adding a card that already has 3 copies leaves the deck unchanged |
| Decks.AddAtMostOne | src/deck.rs:76-87 | even without the invariant, `add` raises the size by at most 1 |
| Decks.Entries.RemoveAt | src/deck.rs:91-95 | the two vectors stay the same length |
| Decks.RemoveAtValid | src/deck.rs:91-95 | removing a copy keeps the invariant, dropping the entry from both vectors when its count reaches 0 |
| Decks.RemoveAtSize | src/deck.rs:91-95 | the size drops by exactly 1 |
| Decks.RemoveAtOther | src/deck.rs:91-95 | every card other than the rolled one keeps its copies, including a card shifted left when the rolled entry is dropped |
| Decks.RemoveAtCopies | src/deck.rs:91-95 | the rolled card loses exactly one copy; every other card keeps its copies |
| Decks.Entries.Expand | src/deck.rs:132-139 | the copy-group walk lists exactly current_size copies |
| Decks.ExpandAt | src/deck.rs:132-139 | copy c of entry j sits at position Sum(counts[..j]) + c of the walk, where `current_card == j` and `copies_count == c` |
| Decks.Entries.Curve | src/deck.rs:49-58 | the curve has PP_CURVE_SIZE buckets |
| Decks.CurveSum | src/deck.rs:49-58 | the buckets sum to current_size |
| Decks.CurveAllCheap | src/deck.rs:49-58 | when every card costs at most 1, the curve is [size, 0, 0, 0, 0, 0, 0, 0] |
| Decks.AddRepeated | src/deck.rs:76-87 | k >= 1 adds of a card the deck lacks append it with min(3, k) copies |
| Decks.TestAdds | src/deck.rs:203-207 | the test's adds, six for each card below n, number 6n |
| Decks.TestDeck | src/deck.rs:202-207 | after those adds the deck holds cards 0..n-1, in order, each at 3 copies |
| Decks.TestDeckLast | src/deck.rs:202-208 | one more add of a card not below n appends it with one copy |
| Decks.TestDeckCurve | src/deck.rs:202-209 | when those cards cost at most 1, that deck has 3n+1 copies and the curve [3n+1, 0, 0, 0, 0, 0, 0, 0] |
| Decks.CurveTest | src/deck.rs:202-209 | the test's deck (13 cards added six times each, then card 14) has exactly 40 copies, and its curve is [40, 0, 0, 0, 0, 0, 0, 0] when cards 0..14 cost at most 1 |
| Decks.AddAll | src/deck.rs:76-87 | a run of adds keeps the vectors aligned |
| Decks.AddAllValid | src/deck.rs:76-87 | a run of adds keeps the invariant |
| Decks.AddAllSize | src/deck.rs:76-87 | k adds raise the size by at most k |
| Decks.FillWith | src/deck.rs:64-68 | the fill keeps the vectors aligned |
| Decks.FillValid | src/deck.rs:64-68 | the fill keeps the invariant |
| Decks.FillBounded | src/deck.rs:64-68 | a deck of at most DECK_SIZE copies is still at most DECK_SIZE after the fill |
| Decks.FillComplete | src/deck.rs:64-68 | given enough draws, the fill ends at exactly DECK_SIZE copies, because each add raises the size by at most 1 |
| Decks.Crossed | src/deck.rs:127-149 | the child before its fill has aligned vectors |
| Decks.CrossedBounds | src/deck.rs:127-149 | `crossover` copies from the first parent plus DECK_SIZE-1-crossover from the second give a valid child of at most DECK_SIZE-1 copies |
| Decks.MixParts | src/deck.rs:132-149 | the first parent's first `crossover` copies followed by the second parent's first DECK_SIZE-1-crossover copies, added one by one, build exactly the crossed deck, which is valid |
| Decks.MixComplete | src/deck.rs:127-152 | given enough draws, the mixed child is valid and has exactly DECK_SIZE copies |
| Decks.RadixDigits | src/deck.rs:23-24 | the alphabet has 64 characters, and each character reads back as its own index |
| Decks.DigitValue | src/deck.rs:23-24 | every character has a digit value below 64, and a character of the alphabet `RADIX` sits at the index of its value |
| Decks.Decode | src/deck.rs:21-31 | a string of k digits reads as a number below 64^k |
| Decks.Base64 | src/deck.rs:21-31 | every character of the encoding is in the alphabet |
| Decks.DecodeBase64 | src/deck.rs:21-31 | reading the encoding back, most significant digit first, gives the id |
| Decks.Base64Decode | src/deck.rs:21-31 | the other way round: a digit string without a leading zero digit decodes to a number whose encoding is that string; only the empty string decodes to 0 |
| Decks.Base64Canonical | src/deck.rs:21-31 | the encoding is empty exactly for 0 and never starts with the zero digit |
| Decks.IdToSvPortalEncode | src/deck.rs:21-31 | the divide-and-push loop followed by the reversal yields the base-64 encoding: empty for 0, and decoding it gives the id |
| Decks.Deck.constructor | src/deck.rs:60-62 | a new deck is empty and valid |
| Decks.Deck.Add | src/deck.rs:76-87 | needs only aligned vectors, like the source; updates them in place to the value of `Entries.Add`, and keeps the invariant when it held |
| Decks.Deck.RemoveRandom | src/deck.rs:89-96 | with a roll in [1, len-1), the vectors become `RemoveAt(roll)`; the size drops by exactly 1 |
| Decks.Deck.RandomFill | src/deck.rs:64-68 | the add loop yields `FillWith(old, draws)`, keeping the invariant; given enough draws, the size is exactly DECK_SIZE |
| Decks.Deck.FromRandom | src/deck.rs:70-74 | a fresh valid deck filled from empty |
| Decks.Deck.Mutate | src/deck.rs:122-125 | removes one copy at the roll, then refills |
| Decks.Deck.PpCurve | src/deck.rs:49-58 | the bucket-accumulating loop returns `Curve(cost)`, whose buckets sum to the size |
| Decks.Deck.AddCopyGroups | src/deck.rs:132-139 | the copy-group walk adds the first n copies of the parent, in order, to the child |
| Decks.Deck.CrossInto | src/deck.rs:129-149 | the two loops, run on a new deck, leave it valid and equal to the crossed deck |
| Decks.Deck.Mix | src/deck.rs:127-152 | a fresh valid child equal to the fill of the crossed deck |
| Population.CullThreshold | src/population.rs:90-93 | the threshold is min(threshold + annealing * generation, threshold_cap) |
| Population.Keep | src/population.rs:94-102 | the survivors of a cull are no more than the entries |
| Population.KeepAt | src/population.rs:94-102 | survivor k of any vector aligned with the ratings is the entry at original position `Kept[k]`, so decks and ratings stay aligned |
| Population.KeptExactly | src/population.rs:94-102 | the surviving positions are increasing (original order), all rated at least the threshold, and every entry rated at least the threshold survives |
| Population.SurvivorsAboveThreshold | src/population.rs:94-102 | after the cull every rating is at least the threshold |
| Population.Population.FromRandom | src/population.rs:28-48 | POPULATION_SIZE valid decks, each filled from empty; counters and statistics zero, argument lists empty |
| Population.Population.SetFitnessArgs | src/population.rs:50-52 | stores the three weights and changes nothing else |
| Population.Population.SetCullArgs | src/population.rs:54-56 | stores the three cull arguments and changes nothing else |
| Population.Population.SetMutationArgs | src/population.rs:64-71 | stores the three mutation arguments and changes nothing else |
| Population.Population.UpdateHistory | src/population.rs:73-87 | generation + 1; min/max are the minimum and maximum of the ratings; the best rating never decreases; the best deck changes only when the maximum beats it, and becomes the first deck rated at the maximum |
| Population.CullVectors | src/population.rs:94-102 | the in-place cursor loop leaves exactly the entries rated at least the threshold, in order, in both vectors |
| Population.Population.Cull | src/population.rs:89-104 | returns the capped threshold; decks and ratings become exactly the pairs rated at least the threshold, in order |
| Population.Accepts | src/population.rs:109 | for a positive maximum, a draw is accepted exactly when chance * max < rating; a rating of 0 is never accepted; the best-rated deck is accepted by every chance below 1 |
| Population.Population.Select | src/population.rs:106-113 | returns a copy of the deck named by the first accepted draw; every earlier draw was rejected |
| Population.Population.NextGeneration | src/population.rs:152-166 | POPULATION_SIZE children, child s bred from the deck that `select` picks with slot s's draws |
| Population.Population.Cycle | src/population.rs:115-168 | generation + 1 and statistics of the new ratings; the best rating becomes the new maximum when it beats the old best, and the best deck then becomes a copy of the first deck rated at the maximum, otherwise both stay; the cull leaves the survivors' ratings; fewer than 2 survivors gives false and no reproduction; otherwise true with exactly POPULATION_SIZE children bred from survivors |
| Context.GetCraft | src/context.rs:23-35 | the name is non-empty exactly for 1..8 |
| Context.GetCraftInjective | src/context.rs:23-35 | the eight numbers give eight different crafts, none of them "Neutral" |
| Context.Retained | src/context.rs:47-51 | in Unlimited a Neutral card is always kept; with a craft number outside 1..8 only Neutral or craftless cards are kept |
| Context.FilterCatalog | src/context.rs:43-53 | the filter keeps a subset of the catalog, with the same cards |
| Context.FilterExactly | src/context.rs:47-51 | a card is kept exactly when its craft is the chosen one or Neutral, and it is in rotation unless the mode is Unlimited |
| Context.FilterModes | src/context.rs:47-51 | Unlimited keeps everything any other mode keeps; a craft outside 1..8 keeps only Neutral or craftless cards |
| Context.StrLe | src/context.rs:72-74 | Rust's `String` order: a prefix comes first, and a string comes first only if its first character does not exceed the other's |
| Context.TagsLe | src/context.rs:75 | Rust's `Vec<String>` order: a prefix comes first, and a vector comes first only if its first string does not exceed the other's |
| Context.StrLeTotal | src/context.rs:72-74 | any two strings are ordered one way or the other |
| Context.StrLeAntisymmetric | src/context.rs:72-74 | strings ordered both ways are equal |
| Context.StrLeTransitive | src/context.rs:72-74 | the string order is transitive |
| Context.TagsLeTotal | src/context.rs:75 | any two tag vectors are ordered one way or the other |
| Context.TagsLeAntisymmetric | src/context.rs:75 | tag vectors ordered both ways are equal |
| Context.TagsLeTransitive | src/context.rs:75 | the tag-vector order is transitive |
| Context.KeyLe | src/context.rs:71-76 | every key is at most itself, and integer keys compare as integers |
| Context.KeyLeOrder | src/context.rs:71-76 | the key order (integers, strings by code point, vectors of strings lexicographically) is a total order |
| Context.Insert | src/context.rs:72-76 | inserting one id into a pass's output adds exactly that id to the multiset of ids |
| Context.SortByKey | src/context.rs:72-76 | `sort_by_key` permutes the ids, each still a card of the map |
| Context.SortByKeyStable | src/context.rs:72-76 | the sort is stable: ids ordered by some keys, sorted by a new key, are ordered by the new key and then the old ones |
| Context.FirstIsCheapest | src/context.rs:76 | with cost as the first key, the first card costs no more than any other |
| Context.CardsVec.constructor | src/context.rs:57 | the vector holds the given ids |
| Context.CardsVec.FromDict | src/context.rs:60-65 | the result holds each key of the map exactly once, ordered by (pp, tags, type, craft, trait, id) |
| Context.CardsVec.Sort | src/context.rs:70-77 | the six passes permute the vector into the order (pp, tags, type, craft, trait, id), the last pass's key first |
| Context.DebugPoolStartsCheap | src/context.rs:178-182 | in the Unlimited Forestcraft pool, if some card costs 0 then the first card costs 0 and is Forestcraft or Neutral |
| Context.IdxToCard | src/context.rs:165-167 | the card named by the idx-th id is a card of the map |
| Context.IdxToCardDefined | src/context.rs:165-167 | on a vector built by `from_dict`, every index below its length names a key of the map |
| Context.IndexOf | src/context.rs:123-125 | the first position of the tag |
| Context.Toggle | src/context.rs:121-129 | a chosen tag is removed and an unchosen one appended; the list keeps no duplicates; other tags are unaffected |
| Context.ToggleTwice | src/context.rs:121-129 | choosing an unchosen tag twice restores the list; choosing a chosen one twice keeps the same tags but moves it to the end |
| Context.Chosen | src/context.rs:118-131 | the choices up to the first 0 keep the list free of duplicates and within the available tags |
| Context.ChooseTags | src/context.rs:117-131 | the reading loop yields `Chosen(available, inputs, [])`, with no duplicates and only available tags |
| Tagger.ContainsAt | src/assets/tagger.py:37-39 | Python's substring test holds exactly when the needle occurs at some position |
| Tagger.Contains | src/assets/tagger.py:37-42 | Python's `in` on strings: the empty string is in every string, and no string is in a shorter one |
| Tagger.GenericTags | src/assets/tagger.py:37-42 | only Evolve, Machina, Natura; Evolve exactly for "evolve"/"evolution"/"union burst", Machina exactly for "Mach" in the trait or "machina" |
| Tagger.ForestTags | src/assets/tagger.py:46-54 | only Forest tags; Buff exactly when the Buff test holds |
| Tagger.SwordTags | src/assets/tagger.py:58-62 | only Levin and Rally |
| Tagger.RuneTags | src/assets/tagger.py:66-71 | only Dirt and Spellboost; every Spell gets Spellboost |
| Tagger.DragonTags | src/assets/tagger.py:75-79 | only Discard and Ramp |
| Tagger.ShadowTags | src/assets/tagger.py:83-89 | only Necromancy, Burial Rite, Last Words |
| Tagger.BloodTags | src/assets/tagger.py:93-100 | only Avarice, Wrath, Vengeance |
| Tagger.HavenTags | src/assets/tagger.py:104-110 | only Heal, Amulet, Ward |
| Tagger.PortalTags | src/assets/tagger.py:114-120 | only Artifact, Puppet, Float |
| Tagger.ClassTags | src/assets/tagger.py:46-120 | no generic tag; Buff exactly for Forestcraft/Neutral cards that pass the Buff test |
| Tagger.AutoTag | src/assets/tagger.py:30-121 | Evolve and Machina exactly on their texts; every Forestcraft or Neutral card gets Buff; for each craft only generic tags and that craft's branch tags (Forest ones for Neutral, the first branch), and only generic tags for any other craft; every Runecraft Spell gets Spellboost |
| Tagger.NameInjective | src/assets/tagger.py:30-121 | two tags written as the same string are the same tag |
| Tagger.NamesDistinct | src/assets/tagger.py:30-121 | no two tags share a string |
| Tagger.AutoTagNames | src/assets/tagger.py:30-121 | the returned set of strings holds a tag's string exactly when the tag is given |
| Tagger.AutoTagReadsFourFields | src/assets/tagger.py:30-121 | cards that agree on effect, craft, trait and type get the same tags |
| Tagger.BuffOnEmptyEffect | src/assets/tagger.py:53-54 | a Forestcraft card with an empty effect gets Buff without either Buff text |
| Tagger.AutoTagIntended | src/assets/tagger.py:30-121 | with the Buff test read as two substring tests, Buff goes exactly to Forestcraft/Neutral cards whose effect has "+" or "increased by an effect" |
| Tagger.IntendedDiffersOnlyInBuff | src/assets/tagger.py:53-54 | the corrected tagging differs from the written one only in Buff |

## Left out

- `Deck::rate` and `generics::avg` are left out, because they are floating-point arithmetic (`powf`, `sqrt`, division). `Population.Population.Cycle` therefore takes the ratings as the parameter `scores`, and `avg_rating` is not a field.
- `Deck::print` and `generics::hist` are left out, because they only print to the terminal. The encoder that `print` uses is modelled.
- `dialogue` is left out, because it reads stdin. So are the prompts of `Context::from_input`, the whole of `Context::from_debug`, and the JSON parse of the catalog. The answers become parameters, and the catalog is a map.
- `Context::from_input` also collects the available tags from a hash set. That collection is not modelled: `Context.ChooseTags` receives the list `available`.
- src/card.rs is not part of this model; it only unpacks JSON values.
- From src/globals.rs the model keeps the four constants; the embedded asset files are not part of it.
- src/main.rs, the root-level tagger.py and `load_cardpool` are left out, because they are file and console I/O.
- `set_selection_args` and `set_mix_args` have empty bodies. The fields they would set, `selection_args` and `mix_args`, are never written, so they are not modelled.
- `rand::thread_rng` is replaced by draw parameters.
- Decks.Deck.RandomFill also stops when its draws run out. The source draws forever, and ends only when the catalog has enough cards. "Exactly DECK_SIZE" is proved under the hypothesis that the draws suffice.
- Population.Population.Select requires that some draw is accepted. The source spins forever when none is, for example when every rating is 0.
- Population.Population.Cycle abstracts child production as the parameter `breed(parent, slot)`. The source calls `rate`, `mix` and `mutate` with arguments their definitions in src/deck.rs do not take. The deck-level `mix` and `mutate` are modelled in `Decks`.
- Context.ChooseTags also ends when the answers run out. The source keeps prompting until it reads 0.
- Context.CardsVec.Sort models the first pass, `sort_unstable_by_key`, as a stable sort. The final order it proves does not depend on how that pass breaks ties.
- Context.ToggleTwice does not give back the original list when the tag was already chosen. The second toggle appends the tag at the end, so only the set of tags is restored.
- Decks.Deck.Mix walks the second parent from entry 0 upward: the second loop resets `current_card` to 0 and reads `other.cards[current_card]` (src/deck.rs:140-143).
- Integer widths are not modelled: `usize` counts, the `u32` generation and the `u32` card id are unbounded naturals. Ratings are reals, so NaN, infinities and rounding are not modelled, except for the division by a zero maximum in `select`.
- Decks.Deck.PpCurve builds the curve as a sequence value. The source uses a local `[usize; 8]`, which Rust also returns by value.
- The population stores decks as values. Rust owns them by value and `clone` copies them deeply, so no aliasing is lost.
- The card data that src/deck.rs reads through `ctx.card_list` and `ctx.card_library` is reduced to the cost function `cost`. That context does not define those fields.

## Findings

| source | as written | input that shows it | evidently intended | confidence | as-written member | corrected member |
|---|---|---|---|---|---|---|
| src/assets/tagger.py:53-54 | the second operand of the Buff test is a bare non-empty string, which is always true, so every Forestcraft or Neutral card gets Buff | a Forestcraft card with an empty effect | a substring test of "increased by an effect" against the effect text | high; not executed | Tagger.AutoTag, Tagger.BuffOnEmptyEffect | Tagger.AutoTagIntended, Tagger.IntendedDiffersOnlyInBuff |
