/** The card record of the catalog: what src/assets/tagger.py writes for each card and
    src/context.rs reads back as `CardInfo`. */
module Catalog {

  /** `id_`, `pp_`, `craft_`, `trait_`, `type_`, the lower-cased `effect_`, `tags_` and
      `rotation_` of a card. */
  datatype Card = Card(
    id: int,
    pp: nat,
    craft: string,
    cardTrait: string,
    cardType: string,
    effect: string,
    tags: seq<string>,
    rotation: bool)
}
