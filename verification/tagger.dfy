/**
 * `autotag_card` of src/assets/tagger.py: the tags a card gets from its lower-cased effect
 * text, its craft, its trait and its type. Generic tags come first; then the first craft
 * branch whose test holds adds the class tags.
 */
module Tagger {
  import Catalog

  type Card = Catalog.Card

  /** `needle` is a prefix of `hay`. */
  predicate StartsWith(hay: string, needle: string)
  {
    |needle| <= |hay| && hay[..|needle|] == needle
  }

  /** Python's `needle in hay` on strings. */
  predicate Contains(hay: string, needle: string): (found: bool)
    ensures needle == [] ==> found
    ensures found ==> |needle| <= |hay|
    decreases |hay|
  {
    StartsWith(hay, needle) || (hay != [] && Contains(hay[1..], needle))
  }

  /** `needle` occurs in `hay` starting at position `i`. */
  predicate OccursAt(hay: string, needle: string, i: nat)
  {
    i + |needle| <= |hay| && hay[i..i + |needle|] == needle
  }

  /** `needle in hay` holds exactly when `needle` occurs at some position of `hay`. */
  lemma {:induction false} ContainsAt(hay: string, needle: string)
    ensures Contains(hay, needle) <==> exists i: nat :: OccursAt(hay, needle, i)
    decreases |hay|
  {
    if hay == [] {
      if StartsWith(hay, needle) {
        assert OccursAt(hay, needle, 0);
      }
      if i: nat :| OccursAt(hay, needle, i) {
        assert StartsWith(hay, needle);
      }
    } else {
      ContainsAt(hay[1..], needle);
      if StartsWith(hay, needle) {
        assert OccursAt(hay, needle, 0);
      }
      if Contains(hay[1..], needle) {
        var i: nat :| OccursAt(hay[1..], needle, i);
        assert hay[1..][i..i + |needle|] == hay[i + 1..i + 1 + |needle|];
        assert OccursAt(hay, needle, i + 1);
      }
      if i: nat :| OccursAt(hay, needle, i) {
        if i > 0 {
          assert hay[1..][i - 1..i - 1 + |needle|] == hay[i..i + |needle|];
          assert OccursAt(hay[1..], needle, i - 1);
        } else {
          assert StartsWith(hay, needle);
        }
      }
    }
  }

  /** Python's truth value of a string. */
  predicate Truthy(s: string)
  {
    s != []
  }

  /** The tag vocabulary: every tag `autotag_card` can add. */
  datatype Tag =
    | Evolve | Machina | Natura
    | Amazon | Fairy | Accelerate | Buff
    | Levin | Rally
    | Dirt | Spellboost
    | Discard | Ramp
    | Necromancy | BurialRite | LastWords
    | Avarice | Wrath | Vengeance
    | Heal | Amulet | Ward
    | Artifact | Puppet | Float

  /** The string the tagger writes for a tag. */
  function Name(t: Tag): string
  {
    match t
    case Evolve => "Evolve"
    case Machina => "Machina"
    case Natura => "Natura"
    case Amazon => "Amazon"
    case Fairy => "Fairy"
    case Accelerate => "Accelerate"
    case Buff => "Buff"
    case Levin => "Levin"
    case Rally => "Rally"
    case Dirt => "Dirt"
    case Spellboost => "Spellboost"
    case Discard => "Discard"
    case Ramp => "Ramp"
    case Necromancy => "Necromancy"
    case BurialRite => "Burial Rite"
    case LastWords => "Last Words"
    case Avarice => "Avarice"
    case Wrath => "Wrath"
    case Vengeance => "Vengeance"
    case Heal => "Heal"
    case Amulet => "Amulet"
    case Ward => "Ward"
    case Artifact => "Artifact"
    case Puppet => "Puppet"
    case Float => "Float"
  }

  function TagIf(condition: bool, tag: Tag): (tags: set<Tag>)
    ensures tags <= {tag} && (tag in tags <==> condition)
  {
    if condition then {tag} else {}
  }

  /** The crafts that have a branch, and "Neutral", which the first branch takes. */
  const CRAFTS: set<string> := {"Forestcraft", "Swordcraft", "Runecraft", "Dragoncraft", "Shadowcraft",
                                "Bloodcraft", "Havencraft", "Portalcraft", "Neutral"}

  const GENERIC_TAGS: set<Tag> := {Evolve, Machina, Natura}
  const FOREST_TAGS: set<Tag> := {Amazon, Fairy, Accelerate, Buff}

  predicate EvolveText(eff: string)
  {
    Contains(eff, "evolve") || Contains(eff, "evolution") || Contains(eff, "union burst")
  }

  predicate MachinaText(card: Card)
  {
    Contains(card.cardTrait, "Mach") || Contains(card.effect, "machina")
  }

  /** The craft-independent tags. */
  function GenericTags(card: Card): (tags: set<Tag>)
    ensures tags <= GENERIC_TAGS
    ensures Evolve in tags <==> EvolveText(card.effect)
    ensures Machina in tags <==> MachinaText(card)
  {
    var eff := card.effect;
    TagIf(EvolveText(eff), Evolve)
    + TagIf(MachinaText(card), Machina)
    + TagIf(Contains(eff, "naterra") || Contains(eff, "natura") || Contains(card.cardTrait, "Nat"), Natura)
  }

  /** The test that adds "Buff": as written, the second operand is a bare non-empty string
      literal; `intended` reads it as a substring test of the effect instead. */
  predicate BuffRule(eff: string, intended: bool)
  {
    Contains(eff, "+") || (if intended then Contains(eff, "increased by an effect") else Truthy("increased by an effect"))
  }

  function ForestTags(eff: string, intended: bool): (tags: set<Tag>)
    ensures tags <= {Amazon, Fairy, Accelerate, Buff} && (Buff in tags <==> BuffRule(eff, intended))
    ensures tags !! GENERIC_TAGS
  {
    TagIf(Contains(eff, "greenwood"), Amazon)
    + TagIf(Contains(eff, "fairy") || Contains(eff, "fairies"), Fairy)
    + TagIf(Contains(eff, "accelerate"), Accelerate)
    + TagIf(BuffRule(eff, intended), Buff)
  }

  function SwordTags(card: Card): (tags: set<Tag>)
    ensures tags <= {Levin, Rally}
    ensures tags !! GENERIC_TAGS && Buff !in tags
  {
    TagIf(card.cardTrait == "Levin" || Contains(card.cardTrait, "Lvn") || Contains(card.effect, "levin"), Levin)
    + TagIf(Contains(card.effect, "summon") || Contains(card.effect, "rally"), Rally)
  }

  function RuneTags(card: Card): (tags: set<Tag>)
    ensures tags <= {Dirt, Spellboost} && (card.cardType == "Spell" ==> Spellboost in tags)
    ensures tags !! GENERIC_TAGS && Buff !in tags
  {
    var eff := card.effect;
    TagIf(card.cardTrait == "Earth Sigil" || Contains(eff, "earth sigil") || Contains(eff, "earth rite"), Dirt)
    + TagIf(Contains(eff, "spellboost") || card.cardType == "Spell", Spellboost)
  }

  function DragonTags(eff: string): (tags: set<Tag>)
    ensures tags <= {Discard, Ramp}
    ensures tags !! GENERIC_TAGS && Buff !in tags
  {
    TagIf(Contains(eff, "discard"), Discard)
    + TagIf(Contains(eff, "empty play point") || Contains(eff, "overflow"), Ramp)
  }

  function ShadowTags(eff: string): (tags: set<Tag>)
    ensures tags <= {Necromancy, BurialRite, LastWords}
    ensures tags !! GENERIC_TAGS && Buff !in tags
  {
    TagIf(Contains(eff, "necromancy") || (Contains(eff, "gain") && Contains(eff, "shadow")), Necromancy)
    + TagIf(Contains(eff, "burial rite") || Contains(eff, "reanimate") || Contains(eff, "then destroy"), BurialRite)
    + TagIf(Contains(eff, "last words"), LastWords)
  }

  function BloodTags(eff: string): (tags: set<Tag>)
    ensures tags <= {Avarice, Wrath, Vengeance}
    ensures tags !! GENERIC_TAGS && Buff !in tags
  {
    TagIf(Contains(eff, "avarice") || Contains(eff, "draw"), Avarice)
    + TagIf(Contains(eff, "wrath") || Contains(eff, "damage to your leader") || Contains(eff, "damage to both leaders")
            || Contains(eff, "leader takes damage") || Contains(eff, "has taken damage"), Wrath)
    + TagIf(Contains(eff, "vengeance"), Vengeance)
  }

  function HavenTags(eff: string): (tags: set<Tag>)
    ensures tags <= {Heal, Amulet, Ward}
    ensures tags !! GENERIC_TAGS && Buff !in tags
  {
    TagIf(Contains(eff, "restore") || Contains(eff, "elana") || Contains(eff, "repair mode"), Heal)
    + TagIf(Contains(eff, "countdown") || Contains(eff, "amulet"), Amulet)
    + TagIf(Contains(eff, "ward"), Ward)
  }

  function PortalTags(eff: string): (tags: set<Tag>)
    ensures tags <= {Artifact, Puppet, Float}
    ensures tags !! GENERIC_TAGS && Buff !in tags
  {
    TagIf(Contains(eff, "artifact"), Artifact)
    + TagIf(Contains(eff, "puppet"), Puppet)
    + TagIf(Contains(eff, "play point"), Float)
  }

  /** The tags of the first craft branch whose test holds (every test also accepts
      "Neutral", which the first one already catches). */
  function ClassTags(card: Card, intended: bool): (tags: set<Tag>)
    ensures tags !! GENERIC_TAGS
    ensures Buff in tags <==> card.craft in {"Forestcraft", "Neutral"} && BuffRule(card.effect, intended)
  {
    var eff, craft := card.effect, card.craft;
    if craft == "Forestcraft" || craft == "Neutral" then ForestTags(eff, intended)
    else if craft == "Swordcraft" || craft == "Neutral" then SwordTags(card)
    else if craft == "Runecraft" || craft == "Neutral" then RuneTags(card)
    else if craft == "Dragoncraft" || craft == "Neutral" then DragonTags(eff)
    else if craft == "Shadowcraft" || craft == "Neutral" then ShadowTags(eff)
    else if craft == "Bloodcraft" || craft == "Neutral" then BloodTags(eff)
    else if craft == "Havencraft" || craft == "Neutral" then HavenTags(eff)
    else if craft == "Portalcraft" || craft == "Neutral" then PortalTags(eff)
    else {}
  }

  /** `autotag_card`. */
  function AutoTag(card: Card): (tags: set<Tag>)
    ensures Evolve in tags <==> EvolveText(card.effect)
    ensures Machina in tags <==> MachinaText(card)
    ensures card.craft in {"Forestcraft", "Neutral"} ==> Buff in tags
    ensures card.craft in {"Forestcraft", "Neutral"} ==> tags <= GENERIC_TAGS + FOREST_TAGS
    ensures card.craft == "Swordcraft" ==> tags <= GENERIC_TAGS + {Levin, Rally}
    ensures card.craft == "Runecraft" ==> tags <= GENERIC_TAGS + {Dirt, Spellboost}
    ensures card.craft == "Dragoncraft" ==> tags <= GENERIC_TAGS + {Discard, Ramp}
    ensures card.craft == "Shadowcraft" ==> tags <= GENERIC_TAGS + {Necromancy, BurialRite, LastWords}
    ensures card.craft == "Bloodcraft" ==> tags <= GENERIC_TAGS + {Avarice, Wrath, Vengeance}
    ensures card.craft == "Havencraft" ==> tags <= GENERIC_TAGS + {Heal, Amulet, Ward}
    ensures card.craft == "Portalcraft" ==> tags <= GENERIC_TAGS + {Artifact, Puppet, Float}
    ensures card.craft !in CRAFTS ==> tags <= GENERIC_TAGS
    ensures card.craft == "Runecraft" && card.cardType == "Spell" ==> Spellboost in tags
  {
    GenericTags(card) + ClassTags(card, false)
  }

  /** No two tags are written as the same string. */
  lemma NamesDistinct()
    ensures forall a: Tag, b: Tag :: Name(a) == Name(b) ==> a == b
  {
    forall a: Tag, b: Tag | Name(a) == Name(b)
      ensures a == b
    {
      NameInjective(a, b);
    }
  }

  lemma NameInjective(a: Tag, b: Tag)
    requires Name(a) == Name(b)
    ensures a == b
  {
  }

  /** `autotag_card`'s result as it is returned, a set of strings: a tag's string is in it
      exactly when the tag is. */
  function AutoTagNames(card: Card): (names: set<string>)
    ensures forall t: Tag :: Name(t) in names <==> t in AutoTag(card)
  {
    NamesDistinct();
    set t | t in AutoTag(card) :: Name(t)
  }

  /** The tags depend on nothing but the effect, craft, trait and type of a card. */
  lemma AutoTagReadsFourFields(a: Card, b: Card)
    requires a.effect == b.effect && a.craft == b.craft && a.cardTrait == b.cardTrait && a.cardType == b.cardType
    ensures AutoTag(a) == AutoTag(b)
  {
  }

  /** A Forestcraft card whose effect is empty gets "Buff" although its text has neither a
      "+" nor "increased by an effect". */
  lemma BuffOnEmptyEffect()
    ensures var card := Catalog.Card(1, 1, "Forestcraft", "", "Follower", "", [], true);
      Buff in AutoTag(card) && !Contains(card.effect, "+") && !Contains(card.effect, "increased by an effect")
  {
  }

  /** `autotag_card` with the "Buff" test read as two substring tests of the effect. */
  function AutoTagIntended(card: Card): (tags: set<Tag>)
    ensures Buff in tags <==>
      card.craft in {"Forestcraft", "Neutral"}
      && (Contains(card.effect, "+") || Contains(card.effect, "increased by an effect"))
  {
    GenericTags(card) + ClassTags(card, true)
  }

  /** Apart from "Buff", the intended tagging is the written one. */
  lemma IntendedDiffersOnlyInBuff(card: Card)
    ensures AutoTagIntended(card) - {Buff} == AutoTag(card) - {Buff}
  {
  }
}
