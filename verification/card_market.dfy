/**
  The development-card market: for every colour, three decks of cards, one
  per level.  Cards can be peeked at and bought from the head of a deck, and
  an external event can discard cards of a colour, lowest level first.
 */
module CardMarket {
  import opened Resources
  import opened Results

  datatype Color = Green | Blue | Yellow | Purple

  /** A development card.  Only its colour, level and cost matter to the
      market; `id` stands for the rest of its content. */
  datatype Card = Card(id: nat, color: Color, level: int, cost: ResourcePack)

  /** The failure of a peek or a purchase on an empty deck. */
  datatype MarketError = NoSuchDevelopmentCard

  const Levels: nat := 3

  /** columns[color][level - 1] is the deck of that colour and level, head first. */
  datatype Decks = Decks(columns: map<Color, seq<seq<Card>>>)

  /** Every colour has exactly one deck per level. */
  predicate Valid(m: Decks) {
    forall color: Color :: color in m.columns && |m.columns[color]| == Levels
  }

  function Deck(m: Decks, level: int, color: Color): seq<Card>
    requires Valid(m) && 1 <= level <= Levels
  {
    m.columns[color][level - 1]
  }

  /** Every card sits in the deck of its own colour and level. */
  ghost predicate Placed(m: Decks)
    requires Valid(m)
  {
    forall color: Color, l, k :: 0 <= l < Levels && 0 <= k < |m.columns[color][l]| ==>
      m.columns[color][l][k].color == color && m.columns[color][l][k].level == l + 1
  }

  predicate Distinct(s: seq<Card>) {
    forall i, j :: 0 <= i < j < |s| ==> s[i] != s[j]
  }

  function Min(a: int, b: int): int {
    if a <= b then a else b
  }

  function Max(a: int, b: int): int {
    if a <= b then b else a
  }

  /** The cards of a colour, level 1 first, each deck head first. */
  function Flatten(column: seq<seq<Card>>): seq<Card> {
    if column == [] then [] else column[0] + Flatten(column[1..])
  }

  function CardsLeft(m: Decks, color: Color): nat
    requires Valid(m)
  {
    |Flatten(m.columns[color])|
  }

  lemma {:induction false} FlattenEmpty(column: seq<seq<Card>>)
    ensures Flatten(column) == [] <==> forall l :: 0 <= l < |column| ==> column[l] == []
  {
    if column != [] {
      FlattenEmpty(column[1..]);
      assert forall l :: 1 <= l < |column| ==> column[l] == column[1..][l - 1];
    }
  }

  lemma {:induction false} FlattenUpdateLength(column: seq<seq<Card>>, i: nat, deck: seq<Card>)
    requires i < |column|
    ensures |Flatten(column[i := deck])| == |Flatten(column)| - |column[i]| + |deck|
  {
    if i == 0 {
      assert column[i := deck][1..] == column[1..];
    } else {
      FlattenUpdateLength(column[1..], i - 1, deck);
      assert column[i := deck][1..] == column[1..][i - 1 := deck];
    }
  }

  // ---------------------------------------------------------------------
  // Construction
  // ---------------------------------------------------------------------

  /** The cards of the given colour and level, in their order in `cards`. */
  function CardsOf(cards: seq<Card>, color: Color, level: int): (r: seq<Card>)
    ensures forall x {:trigger x in r} :: x in r <==> x in cards && x.color == color && x.level == level
  {
    if cards == [] then []
    else
      var rest := cards[..|cards| - 1];
      var last := cards[|cards| - 1];
      assert cards == rest + [last];
      CardsOf(rest, color, level) + (if last.color == color && last.level == level then [last] else [])
  }

  const NoCards: seq<seq<Card>> := [[], [], []]

  /** The loading step of the market: every card of the (already shuffled)
      list is appended to the deck of its colour and level. */
  method NewDecks(cards: seq<Card>) returns (m: Decks)
    requires forall i :: 0 <= i < |cards| ==> 1 <= cards[i].level <= Levels
    ensures Valid(m)
    ensures forall color: Color, l :: 0 <= l < Levels ==> m.columns[color][l] == CardsOf(cards, color, l + 1)
  {
    m := Decks(map[Green := NoCards, Blue := NoCards, Yellow := NoCards, Purple := NoCards]);
    forall color: Color
      ensures color in m.columns
    {
      match color
      case Green =>
      case Blue =>
      case Yellow =>
      case Purple =>
    }
    for i := 0 to |cards|
      invariant Valid(m)
      invariant forall color: Color, l :: 0 <= l < Levels ==> m.columns[color][l] == CardsOf(cards[..i], color, l + 1)
    {
      var card := cards[i];
      var column := m.columns[card.color];
      m := Decks(m.columns[card.color := column[card.level - 1 := column[card.level - 1] + [card]]]);
      forall color: Color, l | 0 <= l < Levels
        ensures m.columns[color][l] == CardsOf(cards[..i + 1], color, l + 1)
      {
        CardsOfExtend(cards, i, color, l + 1);
      }
    }
    assert cards[..|cards|] == cards;
  }

  /** Selecting cards never duplicates one. */
  lemma {:induction false} CardsOfDistinct(cards: seq<Card>, color: Color, level: int)
    requires Distinct(cards)
    ensures Distinct(CardsOf(cards, color, level))
  {
    if cards != [] {
      var rest := cards[..|cards| - 1];
      var last := cards[|cards| - 1];
      assert Distinct(rest);
      CardsOfDistinct(rest, color, level);
      assert forall k :: 0 <= k < |rest| ==> rest[k] == cards[k];
      assert last !in rest;
      assert last !in CardsOf(rest, color, level);
    }
  }

  /** Selecting cards keeps every card of the given colour and level as
      often as the list holds it, and no other card. */
  lemma {:induction false} CardsOfCounts(cards: seq<Card>, color: Color, level: int)
    ensures forall x :: multiset(CardsOf(cards, color, level))[x]
                     == if x.color == color && x.level == level then multiset(cards)[x] else 0
  {
    if cards != [] {
      var rest := cards[..|cards| - 1];
      var last := cards[|cards| - 1];
      assert cards == rest + [last];
      CardsOfCounts(rest, color, level);
    }
  }

  lemma CardsOfExtend(cards: seq<Card>, i: nat, color: Color, level: int)
    requires i < |cards|
    ensures CardsOf(cards[..i + 1], color, level)
         == CardsOf(cards[..i], color, level) + (if cards[i].color == color && cards[i].level == level then [cards[i]] else [])
  {
    assert cards[..i + 1][..i] == cards[..i];
  }

  /** Decks holding exactly the cards of each colour and level of `cards`
      hold every card of `cards` in the deck of its colour and level. */
  lemma PartitionHoldsEveryCard(cards: seq<Card>, m: Decks)
    requires Valid(m)
    requires forall color: Color, l :: 0 <= l < Levels ==> m.columns[color][l] == CardsOf(cards, color, l + 1)
    requires forall i :: 0 <= i < |cards| ==> 1 <= cards[i].level <= Levels
    ensures forall i :: 0 <= i < |cards| ==> cards[i] in Deck(m, cards[i].level, cards[i].color)
  {
  }

  /** ... and nothing else: every card in a deck has that deck's colour and level. */
  lemma PartitionPlaced(cards: seq<Card>, m: Decks)
    requires Valid(m)
    requires forall color: Color, l :: 0 <= l < Levels ==> m.columns[color][l] == CardsOf(cards, color, l + 1)
    ensures Placed(m)
  {
    forall color: Color, l, k | 0 <= l < Levels && 0 <= k < |m.columns[color][l]|
      ensures m.columns[color][l][k].color == color && m.columns[color][l][k].level == l + 1
    {
      assert m.columns[color][l][k] in CardsOf(cards, color, l + 1);
    }
  }

  /** Distinct cards give decks without repeated cards. */
  lemma PartitionDistinct(cards: seq<Card>, m: Decks)
    requires Valid(m)
    requires forall color: Color, l :: 0 <= l < Levels ==> m.columns[color][l] == CardsOf(cards, color, l + 1)
    requires Distinct(cards)
    ensures forall color: Color, l :: 0 <= l < Levels ==> Distinct(m.columns[color][l])
  {
    forall color: Color, l | 0 <= l < Levels
      ensures Distinct(m.columns[color][l])
    {
      CardsOfDistinct(cards, color, l + 1);
    }
  }

  // ---------------------------------------------------------------------
  // Peek and buy
  // ---------------------------------------------------------------------

  /** getDevelopmentCard: the head of the deck, which stays in the market. */
  function GetDevelopmentCard(m: Decks, level: int, color: Color): (r: Result<Card, MarketError>)
    requires Valid(m) && 1 <= level <= Levels
    ensures r.Err? <==> Deck(m, level, color) == []
    ensures r.Ok? ==> r.value in Deck(m, level, color)
    ensures r.Ok? ==> r.value == Deck(m, level, color)[0]
    ensures r.Ok? && Placed(m) ==> r.value.color == color && r.value.level == level
  {
    var stack := Deck(m, level, color);
    if stack == [] then Err(NoSuchDevelopmentCard) else Ok(stack[0])
  }

  /** getCost: the cost of the card getDevelopmentCard would return. */
  function GetCost(m: Decks, level: int, color: Color): (r: Result<ResourcePack, MarketError>)
    requires Valid(m) && 1 <= level <= Levels
    ensures r.Err? <==> GetDevelopmentCard(m, level, color).Err?
    ensures r.Ok? ==> r.value == GetDevelopmentCard(m, level, color).value.cost
  {
    var stack := Deck(m, level, color);
    if stack == [] then Err(NoSuchDevelopmentCard) else Ok(stack[0].cost)
  }

  datatype Purchase = Purchase(card: Card, market: Decks)

  /** buyDevelopmentCard: removes and returns the head of the deck. */
  function BuyDevelopmentCard(m: Decks, level: int, color: Color): (r: Result<Purchase, MarketError>)
    requires Valid(m) && 1 <= level <= Levels
    ensures r.Err? <==> Deck(m, level, color) == []
    ensures r.Ok? ==> Ok(r.value.card) == GetDevelopmentCard(m, level, color)
    ensures r.Ok? ==> Valid(r.value.market)
    ensures r.Ok? ==> [r.value.card] + Deck(r.value.market, level, color) == Deck(m, level, color)
    ensures r.Ok? ==> forall c: Color, l :: 1 <= l <= Levels && (c != color || l != level) ==>
                        Deck(r.value.market, l, c) == Deck(m, l, c)
    ensures r.Ok? ==> CardsLeft(r.value.market, color) == CardsLeft(m, color) - 1
    ensures r.Ok? && Placed(m) ==> Placed(r.value.market)
  {
    var stack := Deck(m, level, color);
    if stack == [] then Err(NoSuchDevelopmentCard)
    else
      var market := Decks(m.columns[color := m.columns[color][level - 1 := stack[1..]]]);
      assert stack == [stack[0]] + stack[1..];
      FlattenUpdateLength(m.columns[color], level - 1, stack[1..]);
      Ok(Purchase(stack[0], market))
  }

  /** A card, once bought, is never offered again by its deck. */
  lemma BoughtCardIsGone(m: Decks, level: int, color: Color)
    requires Valid(m) && 1 <= level <= Levels
    requires Distinct(Deck(m, level, color))
    requires BuyDevelopmentCard(m, level, color).Ok?
    ensures var p := BuyDevelopmentCard(m, level, color).value;
      && p.card !in Deck(p.market, level, color)
      && GetDevelopmentCard(p.market, level, color) != Ok(p.card)
  {
  }

  // ---------------------------------------------------------------------
  // Stock and discard
  // ---------------------------------------------------------------------

  /** True when no deck of the column, from `level` on, holds a card. */
  function AllEmptyFrom(column: seq<seq<Card>>, level: nat): (r: bool)
    requires level <= |column|
    ensures r <==> forall l :: level <= l < |column| ==> column[l] == []
    decreases |column| - level
  {
    if level == |column| then true
    else if column[level] != [] then false
    else AllEmptyFrom(column, level + 1)
  }

  /** isOutOfStock: no card of the colour is left at any level. */
  function IsOutOfStock(m: Decks, color: Color): (r: bool)
    requires Valid(m)
    ensures r <==> forall level :: 1 <= level <= Levels ==> Deck(m, level, color) == []
    ensures r <==> CardsLeft(m, color) == 0
  {
    FlattenEmpty(m.columns[color]);
    assert forall l :: 0 <= l < Levels ==> m.columns[color][l] == Deck(m, l + 1, color);
    AllEmptyFrom(m.columns[color], 0)
  }

  predicate IsSuffix(s: seq<Card>, t: seq<Card>) {
    |s| <= |t| && s == t[|t| - |s|..]
  }

  /** The column after `k` cards are removed from its front, level by level:
      a deck is only touched once every lower deck is empty. */
  function DropLowest(column: seq<seq<Card>>, k: nat): (r: seq<seq<Card>>)
    ensures |r| == |column|
  {
    if column == [] then []
    else if k <= |column[0]| then [column[0][k..]] + column[1..]
    else [[]] + DropLowest(column[1..], k - |column[0]|)
  }

  /** Every deck left by a drop is what remains of the original deck after
      removing some of its first cards. */
  lemma {:induction false} DropLowestKeepsSuffixes(column: seq<seq<Card>>, k: nat, l: nat)
    requires l < |column|
    ensures IsSuffix(DropLowest(column, k)[l], column[l])
  {
    if k > |column[0]| && l > 0 {
      DropLowestKeepsSuffixes(column[1..], k - |column[0]|, l - 1);
    }
  }

  /** Dropping k cards removes the first k cards of the flattened column, or
      all of them when there are fewer. */
  lemma {:induction false} DropLowestFlatten(column: seq<seq<Card>>, k: nat)
    ensures Flatten(DropLowest(column, k)) == Flatten(column)[Min(k, |Flatten(column)|)..]
  {
    if column == [] {
    } else if k <= |column[0]| {
      assert DropLowest(column, k)[1..] == column[1..];
      assert (column[0] + Flatten(column[1..]))[k..] == column[0][k..] + Flatten(column[1..]);
    } else {
      DropLowestFlatten(column[1..], k - |column[0]|);
      assert DropLowest(column, k)[1..] == DropLowest(column[1..], k - |column[0]|);
      var rest := Flatten(column[1..]);
      assert (column[0] + rest)[Min(k, |column[0]| + |rest|)..] == rest[Min(k - |column[0]|, |rest|)..];
    }
  }

  /** A higher deck loses cards only when every lower deck is empty. */
  lemma {:induction false} DropLowestLowestFirst(column: seq<seq<Card>>, k: nat, lower: nat, higher: nat)
    requires lower < higher < |column|
    requires DropLowest(column, k)[higher] != column[higher]
    ensures DropLowest(column, k)[lower] == []
  {
    if k > |column[0]| && lower > 0 {
      assert DropLowest(column, k)[1..] == DropLowest(column[1..], k - |column[0]|);
      DropLowestLowestFirst(column[1..], k - |column[0]|, lower - 1, higher - 1);
    }
  }

  /** Dropping a then b cards is dropping a + b cards. */
  lemma {:induction false} DropLowestCompose(column: seq<seq<Card>>, a: nat, b: nat)
    ensures DropLowest(DropLowest(column, a), b) == DropLowest(column, a + b)
  {
    if column == [] {
    } else if a <= |column[0]| {
      var d := DropLowest(column, a);
      assert d[0] == column[0][a..] && d[1..] == column[1..];
      if b <= |d[0]| {
        assert column[0][a..][b..] == column[0][a + b..];
      }
    } else {
      var d := DropLowest(column, a);
      assert d[0] == [] && d[1..] == DropLowest(column[1..], a - |column[0]|);
      if b > 0 {
        DropLowestCompose(column[1..], a - |column[0]|, b);
      } else {
        assert d[0][0..] == d[0];
      }
    }
  }

  /** With every deck below `level` empty, dropping one card takes the head of
      deck `level`. */
  lemma {:induction false} DropOneFromLowest(column: seq<seq<Card>>, level: nat)
    requires level < |column|
    requires forall l :: 0 <= l < level ==> column[l] == []
    requires column[level] != []
    ensures DropLowest(column, 1) == column[level := column[level][1..]]
  {
    if level > 0 {
      DropOneFromLowest(column[1..], level - 1);
      assert column[level := column[level][1..]] == [[]] + column[1..][level - 1 := column[level][1..]];
    }
  }

  /** One successful removal of the discard loop: with every level below
      `level` empty, taking the head of deck `level` drops one more card. */
  lemma DiscardStep(original: seq<seq<Card>>, i: nat, level: nat)
    requires i <= |Flatten(original)|
    requires level < |original|
    requires forall l :: 0 <= l < level ==> DropLowest(original, i)[l] == []
    requires DropLowest(original, i)[level] != []
    ensures i + 1 <= |Flatten(original)|
    ensures DropLowest(original, i)[level := DropLowest(original, i)[level][1..]] == DropLowest(original, i + 1)
  {
    var column := DropLowest(original, i);
    DropLowestFlatten(original, i);
    FlattenEmpty(column);
    DropOneFromLowest(column, level);
    DropLowestCompose(original, i, 1);
  }

  /** When the discard loop finds every level empty, it has removed every
      card of the column. */
  lemma DiscardExhausted(original: seq<seq<Card>>, i: nat)
    requires i <= |Flatten(original)|
    requires forall l :: 0 <= l < |original| ==> DropLowest(original, i)[l] == []
    ensures i == |Flatten(original)|
  {
    DropLowestFlatten(original, i);
    FlattenEmpty(DropLowest(original, i));
  }

  /** discard: removes `amount` cards of a colour, lowest level first and each
      deck from its head; an empty level is skipped without counting, and
      running past level 3 stops the discard. */
  method Discard(m: Decks, color: Color, amount: int) returns (m': Decks, stocked: bool)
    requires Valid(m)
    ensures Valid(m')
    ensures m'.columns == m.columns[color := DropLowest(m.columns[color], Min(Max(amount, 0), CardsLeft(m, color)))]
    ensures CardsLeft(m', color) == CardsLeft(m, color) - Min(Max(amount, 0), CardsLeft(m, color))
    ensures stocked <==> !IsOutOfStock(m', color)
    ensures Placed(m) ==> Placed(m')
  {
    var level := 0;
    var column := m.columns[color];
    ghost var original := column;
    ghost var total := |Flatten(original)|;
    var i := 0;
    while i < amount
      invariant 0 <= level < Levels
      invariant 0 <= i <= Max(amount, 0) && i <= total
      invariant column == DropLowest(original, i)
      invariant forall l :: 0 <= l < level ==> column[l] == []
      decreases amount - i, Levels - level
    {
      if column[level] == [] {
        // nothing to discard at this level: move up and redo this iteration
        level := level + 1;
        if level == Levels {
          DiscardExhausted(original, i);
          m' := Decks(m.columns[color := column]);
          stocked := false;
          DiscardOutcome(m, color, i, m');
          return;
        }
        i := i - 1;
      } else {
        DiscardStep(original, i, level);
        column := column[level := column[level][1..]];
      }
      i := i + 1;
    }
    m' := Decks(m.columns[color := column]);
    stocked := !IsOutOfStock(m', color);
    DiscardOutcome(m, color, i, m');
  }

  /** What a discard of k cards from a colour leaves behind. */
  lemma DiscardOutcome(m: Decks, color: Color, k: nat, m': Decks)
    requires Valid(m)
    requires k <= CardsLeft(m, color)
    requires m'.columns == m.columns[color := DropLowest(m.columns[color], k)]
    ensures Valid(m')
    ensures CardsLeft(m', color) == CardsLeft(m, color) - k
    ensures Placed(m) ==> Placed(m')
  {
    var column := m.columns[color];
    var dropped := DropLowest(column, k);
    DropLowestFlatten(column, k);
    forall l | 0 <= l < Levels
      ensures IsSuffix(dropped[l], column[l])
    {
      DropLowestKeepsSuffixes(column, k, l);
    }
    if Placed(m) {
      forall c: Color, l, j | 0 <= l < Levels && 0 <= j < |m'.columns[c][l]|
        ensures m'.columns[c][l][j].color == c && m'.columns[c][l][j].level == l + 1
      {
        if c == color {
          assert dropped[l][j] == column[l][|column[l]| - |dropped[l]| + j];
        }
      }
    }
  }
}
