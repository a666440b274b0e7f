/**
  The market board: the marble tray and the development-card market side by
  side.  Every operation is delegated to one of the two, and never touches
  the other.
 */
module MarketBoard {
  import opened Resources
  import opened Results
  import RM = ResourceMarket
  import CM = CardMarket

  datatype Board = Board(tray: RM.Tray, cards: CM.Decks)

  predicate Valid(b: Board) {
    RM.WellFormed(b.tray) && CM.Valid(b.cards)
  }

  /** takeRow */
  method TakeRow(b: Board, row: int) returns (b': Board, pack: ResourcePack)
    requires Valid(b)
    ensures Valid(b')
    ensures b'.cards == b.cards
    ensures b'.tray == RM.ShiftRow(b.tray, RM.Clamp(row, RM.Rows))
    ensures pack == multiset(b.tray.grid[RM.Clamp(row, RM.Rows)])
    ensures RM.Tokens(b'.tray) == RM.Tokens(b.tray)
  {
    var tray;
    tray, pack := RM.TakeRow(b.tray, row);
    b' := b.(tray := tray);
  }

  /** takeColumn */
  method TakeColumn(b: Board, column: int) returns (b': Board, pack: ResourcePack)
    requires Valid(b)
    ensures Valid(b')
    ensures b'.cards == b.cards
    ensures b'.tray == RM.ShiftColumn(b.tray, RM.Clamp(column, RM.Columns))
    ensures pack == multiset(RM.ColumnOf(b.tray, RM.Clamp(column, RM.Columns)))
    ensures RM.Tokens(b'.tray) == RM.Tokens(b.tray)
  {
    var tray;
    tray, pack := RM.TakeColumn(b.tray, column);
    b' := b.(tray := tray);
  }

  /** getCost */
  function GetCost(b: Board, level: int, color: CM.Color): (r: Result<ResourcePack, CM.MarketError>)
    requires Valid(b) && 1 <= level <= CM.Levels
    ensures r.Err? <==> CM.Deck(b.cards, level, color) == []
    ensures r.Ok? ==> r.value == CM.Deck(b.cards, level, color)[0].cost
  {
    CM.GetCost(b.cards, level, color)
  }

  /** getDevelopmentCard */
  function GetDevelopmentCard(b: Board, level: int, color: CM.Color): (r: Result<CM.Card, CM.MarketError>)
    requires Valid(b) && 1 <= level <= CM.Levels
    ensures r.Err? <==> CM.Deck(b.cards, level, color) == []
    ensures r.Ok? ==> r.value == CM.Deck(b.cards, level, color)[0]
  {
    CM.GetDevelopmentCard(b.cards, level, color)
  }

  datatype Purchase = Purchase(card: CM.Card, board: Board)

  /** buyDevelopmentCard: on success the tray is untouched and the card
      market loses exactly the bought card. */
  function BuyDevelopmentCard(b: Board, level: int, color: CM.Color): (r: Result<Purchase, CM.MarketError>)
    requires Valid(b) && 1 <= level <= CM.Levels
    ensures r.Err? <==> CM.Deck(b.cards, level, color) == []
    ensures r.Ok? ==> Valid(r.value.board) && r.value.board.tray == b.tray
    ensures r.Ok? ==> [r.value.card] + CM.Deck(r.value.board.cards, level, color) == CM.Deck(b.cards, level, color)
    ensures r.Ok? ==> forall c: CM.Color, l :: 1 <= l <= CM.Levels && (c != color || l != level) ==>
                        CM.Deck(r.value.board.cards, l, c) == CM.Deck(b.cards, l, c)
  {
    match CM.BuyDevelopmentCard(b.cards, level, color)
    case Err(e) => Err(e)
    case Ok(p) => Ok(Purchase(p.card, b.(cards := p.market)))
  }

  /** discard: cards go from the lowest level first, each deck from the front. */
  method Discard(b: Board, color: CM.Color, amount: int) returns (b': Board, stocked: bool)
    requires Valid(b)
    ensures Valid(b')
    ensures b'.tray == b.tray
    ensures CM.CardsLeft(b'.cards, color) == CM.CardsLeft(b.cards, color) - CM.Min(CM.Max(amount, 0), CM.CardsLeft(b.cards, color))
    ensures b'.cards.columns == b.cards.columns[color := CM.DropLowest(b.cards.columns[color],
                                   CM.Min(CM.Max(amount, 0), CM.CardsLeft(b.cards, color)))]
    ensures stocked <==> CM.CardsLeft(b'.cards, color) > 0
  {
    var cards;
    cards, stocked := CM.Discard(b.cards, color, amount);
    b' := b.(cards := cards);
  }
}
