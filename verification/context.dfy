/**
 * The run-time context of src/context.rs: the craft-name table, the catalog filter of
 * `CardsMap::from_input`, the ordered vector of card ids (`CardsVec`), the tag choice loop of
 * `Context::from_input` and `idx_to_card`.
 *
 * The catalog is a map from card id to `Catalog.Card`; its parse from JSON and the prompts are
 * not modelled, so the answers to the prompts and the iteration order of hash maps and hash
 * sets are parameters.
 */
module Context {
  import Catalog

  type Card = Catalog.Card

  /** `get_craft`: the craft chosen by number. */
  function GetCraft(n: nat): (name: string)
    ensures name != "" <==> 1 <= n <= 8
  {
    match n
    case 1 => "Forestcraft"
    case 2 => "Swordcraft"
    case 3 => "Runecraft"
    case 4 => "Dragoncraft"
    case 5 => "Shadowcraft"
    case 6 => "Bloodcraft"
    case 7 => "Havencraft"
    case 8 => "Portalcraft"
    case _ => ""
  }

  /** Different numbers in 1..8 name different crafts, and none of them is "Neutral". */
  lemma GetCraftInjective(m: nat, n: nat)
    requires 1 <= m <= 8 && 1 <= n <= 8 && m != n
    ensures GetCraft(m) != GetCraft(n)
    ensures GetCraft(m) != "Neutral"
  {
    assert GetCraft(m)[0] != GetCraft(n)[0] || GetCraft(m)[1] != GetCraft(n)[1];
    assert GetCraft(m)[0] != 'N';
  }

  /** The `retain` predicate of `CardsMap::from_input`: the chosen craft or Neutral, and in
      rotation unless the game mode is 1 (Unlimited). */
  predicate Retained(card: Card, gameMode: nat, craft: nat): (kept: bool)
    ensures gameMode == 1 && card.craft == "Neutral" ==> kept
    ensures kept && !(1 <= craft <= 8) ==> card.craft in {"", "Neutral"}
  {
    (card.craft == GetCraft(craft) || card.craft == "Neutral") && (gameMode == 1 || card.rotation)
  }

  /** `CardsMap::from_input` after the parse: the catalog without the cards `retain` drops. */
  function FilterCatalog(cards: map<int, Card>, gameMode: nat, craft: nat): (kept: map<int, Card>)
    ensures kept.Keys <= cards.Keys
    ensures forall id :: id in kept ==> kept[id] == cards[id]
  {
    map id | id in cards && Retained(cards[id], gameMode, craft) :: cards[id]
  }

  /** A kept card belongs to the chosen craft or is Neutral, and is in rotation unless the
      mode is Unlimited; every card of that kind is kept. */
  lemma FilterExactly(cards: map<int, Card>, gameMode: nat, craft: nat, id: int)
    requires id in cards
    ensures id in FilterCatalog(cards, gameMode, craft) <==>
      && (cards[id].craft == GetCraft(craft) || cards[id].craft == "Neutral")
      && (gameMode == 1 || cards[id].rotation)
  {
  }

  /** Unlimited keeps every card any other mode keeps; a craft number outside 1..8 keeps only
      Neutral cards, unless a card's craft is empty. */
  lemma FilterModes(cards: map<int, Card>, gameMode: nat, craft: nat)
    ensures FilterCatalog(cards, gameMode, craft).Keys <= FilterCatalog(cards, 1, craft).Keys
    ensures !(1 <= craft <= 8) ==> forall id :: id in FilterCatalog(cards, gameMode, craft) ==>
      cards[id].craft in {"", "Neutral"}
  {
    forall id | id in FilterCatalog(cards, gameMode, craft)
      ensures id in FilterCatalog(cards, 1, craft)
    {
      assert Retained(cards[id], 1, craft);
    }
  }

  // ---------------------------------------------------------------------------------------
  // Orders. Rust compares `String`s by their UTF-8 bytes, which orders them as their code
  // points; vectors compare element by element, a proper prefix first.

  /** `a <= b` for strings. */
  predicate StrLe(a: string, b: string): (le: bool)
    ensures a <= b ==> le
    ensures le && a != [] ==> b != [] && a[0] <= b[0]
  {
    a == [] || (b != [] && if a[0] == b[0] then StrLe(a[1..], b[1..]) else a[0] < b[0])
  }

  /** `a <= b` for vectors of strings. */
  predicate TagsLe(a: seq<string>, b: seq<string>): (le: bool)
    ensures a <= b ==> le
    ensures le && a != [] ==> b != [] && StrLe(a[0], b[0])
  {
    a == [] || (b != [] && if a[0] == b[0] then TagsLe(a[1..], b[1..]) else StrLe(a[0], b[0]))
  }

  lemma {:induction false} StrLeTotal(a: string, b: string)
    ensures StrLe(a, b) || StrLe(b, a)
  {
    if a != [] && b != [] && a[0] == b[0] {
      StrLeTotal(a[1..], b[1..]);
    }
  }

  lemma {:induction false} StrLeAntisymmetric(a: string, b: string)
    requires StrLe(a, b) && StrLe(b, a)
    ensures a == b
  {
    if a != [] {
      StrLeAntisymmetric(a[1..], b[1..]);
      assert a == [a[0]] + a[1..] && b == [b[0]] + b[1..];
    }
  }

  lemma {:induction false} StrLeTransitive(a: string, b: string, c: string)
    requires StrLe(a, b) && StrLe(b, c)
    ensures StrLe(a, c)
  {
    if a != [] && a[0] == b[0] && b[0] == c[0] {
      StrLeTransitive(a[1..], b[1..], c[1..]);
    }
  }

  lemma {:induction false} TagsLeTotal(a: seq<string>, b: seq<string>)
    ensures TagsLe(a, b) || TagsLe(b, a)
  {
    if a != [] && b != [] {
      if a[0] == b[0] {
        TagsLeTotal(a[1..], b[1..]);
      } else {
        StrLeTotal(a[0], b[0]);
      }
    }
  }

  lemma {:induction false} TagsLeAntisymmetric(a: seq<string>, b: seq<string>)
    requires TagsLe(a, b) && TagsLe(b, a)
    ensures a == b
  {
    if a != [] {
      if a[0] == b[0] {
        TagsLeAntisymmetric(a[1..], b[1..]);
        assert a == [a[0]] + a[1..] && b == [b[0]] + b[1..];
      } else {
        StrLeAntisymmetric(a[0], b[0]);
      }
    }
  }

  lemma {:induction false} TagsLeTransitive(a: seq<string>, b: seq<string>, c: seq<string>)
    requires TagsLe(a, b) && TagsLe(b, c)
    ensures TagsLe(a, c)
  {
    if a != [] {
      if a[0] == b[0] && b[0] == c[0] {
        TagsLeTransitive(a[1..], b[1..], c[1..]);
      } else if a[0] == b[0] || b[0] == c[0] {
      } else {
        StrLeTransitive(a[0], b[0], c[0]);
        if a[0] == c[0] {
          StrLeAntisymmetric(a[0], b[0]);
        }
      }
    }
  }

  /** The value a sort pass compares. */
  datatype Key = Num(n: int) | Text(s: string) | Texts(ss: seq<string>)

  function Rank(k: Key): nat
  {
    match k
    case Num(_) => 0
    case Text(_) => 1
    case Texts(_) => 2
  }

  predicate KeyLe(a: Key, b: Key): (le: bool)
    ensures a == b ==> le
    ensures a.Num? && b.Num? ==> (le <==> a.n <= b.n)
  {
    match (a, b)
    case (Num(x), Num(y)) => x <= y
    case (Text(x), Text(y)) => StrLe(x, y)
    case (Texts(x), Texts(y)) => TagsLe(x, y)
    case _ => Rank(a) < Rank(b)
  }

  /** `KeyLe` is a total order. */
  lemma KeyLeOrder(a: Key, b: Key, c: Key)
    ensures KeyLe(a, a)
    ensures KeyLe(a, b) || KeyLe(b, a)
    ensures KeyLe(a, b) && KeyLe(b, a) ==> a == b
    ensures KeyLe(a, b) && KeyLe(b, c) ==> KeyLe(a, c)
  {
    match (a, b, c)
    case (Text(x), Text(y), _) =>
      StrLeTotal(x, x);
      StrLeTotal(x, y);
      if StrLe(x, y) && StrLe(y, x) { StrLeAntisymmetric(x, y); }
      if c.Text? && StrLe(x, y) && StrLe(y, c.s) { StrLeTransitive(x, y, c.s); }
    case (Texts(x), Texts(y), _) =>
      TagsLeTotal(x, x);
      TagsLeTotal(x, y);
      if TagsLe(x, y) && TagsLe(y, x) { TagsLeAntisymmetric(x, y); }
      if c.Texts? && TagsLe(x, y) && TagsLe(y, c.ss) { TagsLeTransitive(x, y, c.ss); }
    case (Text(x), _, _) =>
      StrLeTotal(x, x);
    case (Texts(x), _, _) =>
      TagsLeTotal(x, x);
    case _ =>
  }

  /** The six keys `CardsVec::sort` sorts by. */
  datatype SortKey = ById | ByTrait | ByCraft | ByType | ByTags | ByPp

  function KeyOf(data: map<int, Card>, k: SortKey, x: int): Key
    requires x in data
  {
    var card := data[x];
    match k
    case ById => Num(card.id)
    case ByTrait => Text(card.cardTrait)
    case ByCraft => Text(card.craft)
    case ByType => Text(card.cardType)
    case ByTags => Texts(card.tags)
    case ByPp => Num(card.pp)
  }

  /** Card `a` is not after card `b` by `keys`, the first key deciding and the next ones
      breaking ties. */
  predicate LexLe(data: map<int, Card>, keys: seq<SortKey>, a: int, b: int)
    requires a in data && b in data
  {
    keys == [] ||
      var ka, kb := KeyOf(data, keys[0], a), KeyOf(data, keys[0], b);
      if ka == kb then LexLe(data, keys[1..], a, b) else KeyLe(ka, kb)
  }

  predicate AllIn(s: seq<int>, data: map<int, Card>)
  {
    forall i :: 0 <= i < |s| ==> s[i] in data
  }

  /** `s` is ordered by `keys`. */
  predicate SortedBy(s: seq<int>, data: map<int, Card>, keys: seq<SortKey>)
    requires AllIn(s, data)
  {
    forall i, j :: 0 <= i < j < |s| ==> LexLe(data, keys, s[i], s[j])
  }

  /** The final order of `CardsVec::sort`: the last pass decides first. */
  const CARD_ORDER: seq<SortKey> := [ByPp, ByTags, ByType, ByCraft, ByTrait, ById]

  /** Inserts `x` after every entry of `t` whose key does not exceed its own. */
  function Insert(t: seq<int>, x: int, data: map<int, Card>, k: SortKey): (r: seq<int>)
    requires AllIn(t, data) && x in data
    ensures multiset(r) == multiset(t) + multiset{x}
    ensures AllIn(r, data)
  {
    if t == [] then [x]
    else
      var last := t[|t| - 1];
      if KeyLe(KeyOf(data, k, last), KeyOf(data, k, x)) then t + [x]
      else
        assert t == t[..|t| - 1] + [last];
        Insert(t[..|t| - 1], x, data, k) + [last]
  }

  /** `sort_by_key`: a stable sort by one key, here as an insertion sort. */
  function SortByKey(s: seq<int>, data: map<int, Card>, k: SortKey): (r: seq<int>)
    requires AllIn(s, data)
    ensures multiset(r) == multiset(s)
    ensures AllIn(r, data)
  {
    if s == [] then []
    else
      assert s == s[..|s| - 1] + [s[|s| - 1]];
      assert s[|s| - 1] in data;
      Insert(SortByKey(s[..|s| - 1], data, k), s[|s| - 1], data, k)
  }

  /** The first key is compared first. */
  lemma LexLeHead(data: map<int, Card>, keys: seq<SortKey>, a: int, b: int)
    requires a in data && b in data && keys != [] && LexLe(data, keys, a, b)
    ensures KeyLe(KeyOf(data, keys[0], a), KeyOf(data, keys[0], b))
  {
    var ka := KeyOf(data, keys[0], a);
    KeyLeOrder(ka, ka, ka);
  }

  /** Comparing by `[k] + keys`: by `k`, and by `keys` on a tie. */
  lemma LexLeCons(data: map<int, Card>, k: SortKey, keys: seq<SortKey>, a: int, b: int)
    requires a in data && b in data
    ensures LexLe(data, [k] + keys, a, b) <==>
      if KeyOf(data, k, a) == KeyOf(data, k, b) then LexLe(data, keys, a, b)
      else KeyLe(KeyOf(data, k, a), KeyOf(data, k, b))
  {
    assert ([k] + keys)[0] == k && ([k] + keys)[1..] == keys;
  }

  /** An entry that every entry of an ordered sequence precedes may be appended to it. */
  lemma AppendOrdered(t: seq<int>, x: int, data: map<int, Card>, keys: seq<SortKey>)
    requires AllIn(t, data) && x in data && SortedBy(t, data, keys)
    requires forall i :: 0 <= i < |t| ==> LexLe(data, keys, t[i], x)
    ensures AllIn(t + [x], data) && SortedBy(t + [x], data, keys)
  {
  }

  /** Inserting into a sequence ordered by `[k] + keys` an entry that every entry already
      there precedes by `keys` keeps it ordered by `[k] + keys`. */
  lemma {:induction false} InsertOrdered(t: seq<int>, x: int, data: map<int, Card>, k: SortKey, keys: seq<SortKey>)
    requires AllIn(t, data) && x in data
    requires SortedBy(t, data, [k] + keys)
    requires forall i :: 0 <= i < |t| ==> LexLe(data, keys, t[i], x)
    ensures SortedBy(Insert(t, x, data, k), data, [k] + keys)
    decreases |t|
  {
    if t != [] {
      var n := |t| - 1;
      var last := t[n];
      var kx, kl := KeyOf(data, k, x), KeyOf(data, k, last);
      if KeyLe(kl, kx) {
        forall i | 0 <= i < |t| ensures LexLe(data, [k] + keys, t[i], x) {
          var ki := KeyOf(data, k, t[i]);
          if i < n {
            LexLeCons(data, k, keys, t[i], last);
            KeyLeOrder(ki, ki, ki);
            KeyLeOrder(ki, kl, kx);
          }
          LexLeCons(data, k, keys, t[i], x);
        }
        AppendOrdered(t, x, data, [k] + keys);
      } else {
        var u := Insert(t[..n], x, data, k);
        InsertOrdered(t[..n], x, data, k, keys);
        KeyLeOrder(kx, kl, kx);
        forall i | 0 <= i < |u| ensures LexLe(data, [k] + keys, u[i], last) {
          assert u[i] in multiset(u);
          if u[i] == x {
            LexLeCons(data, k, keys, x, last);
          } else {
            assert u[i] in multiset(t[..n]);
            var j :| 0 <= j < n && t[..n][j] == u[i];
          }
        }
        AppendOrdered(u, last, data, [k] + keys);
      }
    }
  }

  /** Stability: a sequence ordered by `keys`, sorted by `k`, is ordered by `[k] + keys`. */
  lemma {:induction false} SortByKeyStable(s: seq<int>, data: map<int, Card>, k: SortKey, keys: seq<SortKey>)
    requires AllIn(s, data) && SortedBy(s, data, keys)
    ensures SortedBy(SortByKey(s, data, k), data, [k] + keys)
    decreases |s|
  {
    if s != [] {
      var n := |s| - 1;
      var t := SortByKey(s[..n], data, k);
      SortByKeyStable(s[..n], data, k, keys);
      forall i | 0 <= i < |t| ensures LexLe(data, keys, t[i], s[n]) {
        assert t[i] in multiset(s[..n]);
        var j :| 0 <= j < n && s[..n][j] == t[i];
      }
      InsertOrdered(t, s[n], data, k, keys);
    }
  }

  /** Cards in order put the lowest play-point cost first. */
  lemma FirstIsCheapest(s: seq<int>, data: map<int, Card>, keys: seq<SortKey>)
    requires AllIn(s, data) && SortedBy(s, data, keys) && keys != [] && keys[0] == ByPp
    ensures forall j :: 0 < j < |s| ==> data[s[0]].pp <= data[s[j]].pp
  {
    forall j | 0 < j < |s| ensures data[s[0]].pp <= data[s[j]].pp {
      LexLeHead(data, keys, s[0], s[j]);
    }
  }

  /** `CardsVec`: the card ids in the order the genome uses. */
  class CardsVec {
    var ids: seq<int>

    constructor (ids: seq<int>)
      ensures this.ids == ids
    {
      this.ids := ids;
    }

    /** `from_dict`: the keys of the map in its iteration order `order`, then sorted. */
    static method FromDict(data: map<int, Card>, order: seq<int>) returns (v: CardsVec)
      requires multiset(order) == multiset(data.Keys)
      ensures fresh(v)
      ensures multiset(v.ids) == multiset(data.Keys)
      ensures AllIn(v.ids, data) && SortedBy(v.ids, data, CARD_ORDER)
    {
      forall i | 0 <= i < |order| ensures order[i] in data {
        assert order[i] in multiset(data.Keys);
      }
      v := new CardsVec(order);
      v.Sort(data);
    }

    /** `sort`: six successive sorts, by id, trait, craft, type, tags and cost; each pass is
        stable, so the last key decides first and the earlier ones break ties. */
    method Sort(data: map<int, Card>)
      requires AllIn(ids, data)
      modifies this
      ensures multiset(ids) == multiset(old(ids))
      ensures AllIn(ids, data) && SortedBy(ids, data, CARD_ORDER)
    {
      ghost var keys: seq<SortKey> := [];
      ghost var before := ids;
      ids := SortByKey(ids, data, ById);
      SortByKeyStable(before, data, ById, keys);
      keys, before := [ById] + keys, ids;
      ids := SortByKey(ids, data, ByTrait);
      SortByKeyStable(before, data, ByTrait, keys);
      keys, before := [ByTrait] + keys, ids;
      ids := SortByKey(ids, data, ByCraft);
      SortByKeyStable(before, data, ByCraft, keys);
      keys, before := [ByCraft] + keys, ids;
      ids := SortByKey(ids, data, ByType);
      SortByKeyStable(before, data, ByType, keys);
      keys, before := [ByType] + keys, ids;
      ids := SortByKey(ids, data, ByTags);
      SortByKeyStable(before, data, ByTags, keys);
      keys, before := [ByTags] + keys, ids;
      ids := SortByKey(ids, data, ByPp);
      SortByKeyStable(before, data, ByPp, keys);
      keys := [ByPp] + keys;
      assert keys == CARD_ORDER;
    }
  }

  /** The debug context (Unlimited, Forestcraft): when its pool holds a 0-pp card, the first
      card of the sorted vector costs 0 and is Forestcraft or Neutral. */
  lemma DebugPoolStartsCheap(catalog: map<int, Card>, ids: seq<int>)
    requires multiset(ids) == multiset(FilterCatalog(catalog, 1, 1).Keys)
    requires AllIn(ids, FilterCatalog(catalog, 1, 1)) && SortedBy(ids, FilterCatalog(catalog, 1, 1), CARD_ORDER)
    requires exists id :: id in FilterCatalog(catalog, 1, 1) && catalog[id].pp == 0
    ensures ids != [] && FilterCatalog(catalog, 1, 1)[ids[0]].pp == 0
    ensures FilterCatalog(catalog, 1, 1)[ids[0]].craft in {"Forestcraft", "Neutral"}
  {
    var data := FilterCatalog(catalog, 1, 1);
    var id :| id in data && catalog[id].pp == 0;
    assert id in multiset(ids);
    var j :| 0 <= j < |ids| && ids[j] == id;
    assert ids[0] in data;
    FirstIsCheapest(ids, data, CARD_ORDER);
  }

  /** `idx_to_card`: the card of the `idx`-th id. */
  function IdxToCard(data: map<int, Card>, ids: seq<int>, idx: nat): (card: Card)
    requires idx < |ids| && ids[idx] in data
    ensures card in data.Values
  {
    data[ids[idx]]
  }

  /** On a vector built by `from_dict`, every index below its length names a card. */
  lemma IdxToCardDefined(data: map<int, Card>, ids: seq<int>, idx: nat)
    requires multiset(ids) == multiset(data.Keys) && idx < |ids|
    ensures ids[idx] in data
  {
    assert ids[idx] in multiset(data.Keys);
  }

  // ---------------------------------------------------------------------------------------
  // The tag choice loop of `Context::from_input`.

  predicate NoDuplicates(s: seq<string>)
  {
    forall i, j :: 0 <= i < j < |s| ==> s[i] != s[j]
  }

  function IndexOf(s: seq<string>, t: string): (i: nat)
    requires t in s
    ensures i < |s| && s[i] == t && forall j :: 0 <= j < i ==> s[j] != t
  {
    if s[0] == t then 0 else 1 + IndexOf(s[1..], t)
  }

  /** Choosing a tag removes its first occurrence if it is already chosen and appends it
      otherwise. */
  function Toggle(tags: seq<string>, t: string): (r: seq<string>)
    ensures NoDuplicates(tags) ==> NoDuplicates(r) && (t in r <==> t !in tags)
    ensures forall u :: u != t ==> (u in r <==> u in tags)
  {
    if t in tags then
      var i := IndexOf(tags, t);
      assert forall u :: u in tags && u != t ==> u in tags[..i] || u in tags[i + 1..] by {
        assert tags == tags[..i] + [t] + tags[i + 1..];
      }
      tags[..i] + tags[i + 1..]
    else tags + [t]
  }

  /** Choosing an unchosen tag twice gives the list back; choosing a chosen one twice keeps
      the same tags but moves it to the end. */
  lemma ToggleTwice(tags: seq<string>, t: string)
    requires NoDuplicates(tags)
    ensures t !in tags ==> Toggle(Toggle(tags, t), t) == tags
    ensures t in tags ==> Toggle(Toggle(tags, t), t) == Toggle(tags, t) + [t]
    ensures forall u :: u in Toggle(Toggle(tags, t), t) <==> u in tags
  {
    if t !in tags {
      assert IndexOf(tags + [t], t) == |tags|;
      assert (tags + [t])[..|tags|] == tags;
    }
  }

  /** The tags chosen after `inputs`, starting from `tags`: input 0 ends the choice, input
      `i` chooses `available[i - 1]`. */
  function Chosen(available: seq<string>, inputs: seq<nat>, tags: seq<string>): (r: seq<string>)
    requires forall k :: 0 <= k < |inputs| ==> inputs[k] <= |available|
    ensures NoDuplicates(tags) ==> NoDuplicates(r)
    ensures (forall u :: u in tags ==> u in available) ==> forall u :: u in r ==> u in available
  {
    if inputs == [] || inputs[0] == 0 then tags
    else Chosen(available, inputs[1..], Toggle(tags, available[inputs[0] - 1]))
  }

  /** The loop of `Context::from_input` that reads tag numbers until 0; the answers are
      `inputs`, each in [0, |available|] as `dialogue` ensures, and the loop also ends when
      they run out. */
  method ChooseTags(available: seq<string>, inputs: seq<nat>) returns (tags: seq<string>)
    requires forall k :: 0 <= k < |inputs| ==> inputs[k] <= |available|
    ensures tags == Chosen(available, inputs, [])
    ensures NoDuplicates(tags) && forall u :: u in tags ==> u in available
  {
    tags := [];
    var k := 0;
    while k < |inputs|
      invariant k <= |inputs|
      invariant Chosen(available, inputs[k..], tags) == Chosen(available, inputs, [])
    {
      var input := inputs[k];
      if input == 0 {
        break;
      }
      assert inputs[k..][1..] == inputs[k + 1..];
      var tag := available[input - 1];
      if tag in tags {
        tags := tags[..IndexOf(tags, tag)] + tags[IndexOf(tags, tag) + 1..];
      } else {
        tags := tags + [tag];
      }
      k := k + 1;
    }
  }
}
