# Market board model

A Dafny model of the market board of a *Masters of Renaissance* style board
game (`MarketBoard.java`).  The board has two independent parts:

- the **resource market** (market tray): a 3×4 grid of marbles plus one spare
  marble.  Taking a row or a column hands the player the marbles of that line
  and slides the line by one place like a conveyor.  The spare marble is
  pushed in at the far end, and the marble at the near end becomes the new
  spare;
- the **card market**: for each card colour, three decks of development cards,
  one per level.  A player can look at the head card of a deck, read its cost,
  or buy it.  An external event can discard cards of one colour, taking the
  lowest level first.

The `MarketBoard` façade only forwards to these two parts.

Files:

- `resources.dfy`: the marble kinds (`Resource`), packs of resources as
  multisets, the standard 13 marbles, and a `Result` type for operations that
  throw `NoSuchDevelopmentCardException`.
- `resource_market.dfy`: the tray as an immutable value `Tray(grid, remaining)`.
  `ShiftRow`/`ShiftColumn` are reference definitions of the post-state.
  `TakeRow`/`TakeColumn` are the source's loops, written cell by cell from the
  highest index down, and are proved equal to those references.  The file
  also proves conservation, clamping and conveyor-cycle lemmas.
- `card_market.dfy`: the decks as a map from `Color` to three sequences.  It
  holds the construction step, peek, buy, `IsOutOfStock`, and the `discard`
  loop with its retry-on-empty-level behaviour.  The loop is proved equal to
  the reference `DropLowest`, which removes cards lowest level first and
  from the front.
- `market_board.dfy`: the façade.

The Java objects are mutable.  Here each operation takes the old state and
returns the new one.  A harvest returns the new tray together with the pack,
and a purchase returns the bought card together with the new decks.

## Model

| member | source | states |
|---|---|---|
| ResourceMarket.Clamp | src/main/java/it/polimi/ingsw/supply/MarketBoard.java:61-63 | an index is moved to the nearest valid one: the result is always in range, an in-range index is kept, and no valid index is closer to the requested one (so -1 acts as 0 and 7 as the last index); getRow uses it with 3 rows (lines 85-87) and getColumn with 4 columns |
| ResourceMarket.NewTray | src/main/java/it/polimi/ingsw/supply/MarketBoard.java:30-36 | the grid is filled row by row from the drawn marbles and the 13th marble becomes the spare; the tray holds exactly the drawn marbles |
| ResourceMarket.ShiftRow | src/main/java/it/polimi/ingsw/supply/MarketBoard.java:90-97 | after taking row r, cell c of the row holds the old cell c+1, the last cell holds the old spare, the new spare is the old first cell, and every other row is unchanged |
| ResourceMarket.ShiftRowConservesTokens | src/main/java/it/polimi/ingsw/supply/MarketBoard.java:91-96 | taking a row leaves the multiset of the 12 cells plus the spare unchanged |
| ResourceMarket.ShiftColumn | src/main/java/it/polimi/ingsw/supply/MarketBoard.java:66-74 | after taking column c, row k of the column holds the old row k+1, row 2 holds the old spare, the new spare is the old row 0, and every cell outside the column is unchanged |
| ResourceMarket.ShiftColumnConservesTokens | src/main/java/it/polimi/ingsw/supply/MarketBoard.java:67-72 | taking a column leaves the multiset of the 12 cells plus the spare unchanged |
| ResourceMarket.TakeRow | src/main/java/it/polimi/ingsw/supply/MarketBoard.java:82-98 | the loop from the last column down reaches exactly the shifted row of the clamped index; the returned pack is the four original marbles of that row; the 13 marbles are conserved |
| ResourceMarket.TakeColumn | src/main/java/it/polimi/ingsw/supply/MarketBoard.java:58-75 | the loop from the last row down reaches exactly the shifted column of the clamped index; the returned pack is the three original marbles of that column; the 13 marbles are conserved |
| ResourceMarket.RowConveyorCycle | src/main/java/it/polimi/ingsw/supply/MarketBoard.java:91-96 | a row and the spare form a conveyor of five marbles: taking the same row five times restores the tray |
| ResourceMarket.ColumnConveyorCycle | src/main/java/it/polimi/ingsw/supply/MarketBoard.java:67-72 | a column and the spare form a conveyor of four marbles: taking the same column four times restores the tray |
| ResourceMarket.TakesConserveTokens | src/main/java/it/polimi/ingsw/supply/MarketBoard.java:58-98 | any sequence of row and column takes, with any indices, leaves the 13 marbles of the tray unchanged as a multiset |
| ResourceMarket.StandardTrayKeepsStandardMarbles | src/main/java/it/polimi/ingsw/supply/MarketBoard.java:41-51 | a tray built from the standard 2/2/2/2/1/4 marbles still holds exactly those marbles after any sequence of takes |
| CardMarket.CardsOf | src/main/java/it/polimi/ingsw/supply/MarketBoard.java:136-137 | a card lands in the (colour, level) deck exactly when it is in the list and has that colour and level; the deck keeps list order by construction |
| CardMarket.CardsOfCounts | src/main/java/it/polimi/ingsw/supply/MarketBoard.java:134-137 | each card of the deck's colour and level appears in the deck as many times as in the list, and no other card appears at all |
| CardMarket.NewDecks | src/main/java/it/polimi/ingsw/supply/MarketBoard.java:124-137 | the loading loop gives every colour three decks, and each deck holds exactly the list's cards of that colour and level, in list order (the Partition lemmas below draw the consequences) |
| CardMarket.CardsOfDistinct | src/main/java/it/polimi/ingsw/supply/MarketBoard.java:136-137 | routing cards into decks never duplicates a card |
| CardMarket.PartitionHoldsEveryCard | src/main/java/it/polimi/ingsw/supply/MarketBoard.java:136-137 | every loaded card appears in the deck of its own colour and level |
| CardMarket.PartitionPlaced | src/main/java/it/polimi/ingsw/supply/MarketBoard.java:136-137 | every card in a deck has that deck's colour and level |
| CardMarket.PartitionDistinct | src/main/java/it/polimi/ingsw/supply/MarketBoard.java:134-137 | loading distinct cards gives decks without repeated cards |
| CardMarket.GetDevelopmentCard | src/main/java/it/polimi/ingsw/supply/MarketBoard.java:165-169 | fails with NoSuchDevelopmentCard exactly when the deck is empty; otherwise returns the head card, which is a card of that deck and, in a loaded market, has the requested colour and level |
| CardMarket.GetCost | src/main/java/it/polimi/ingsw/supply/MarketBoard.java:149-154 | fails exactly when getDevelopmentCard fails, with NoSuchDevelopmentCard; otherwise returns the cost of the card getDevelopmentCard returns |
| CardMarket.BuyDevelopmentCard | src/main/java/it/polimi/ingsw/supply/MarketBoard.java:180-184 | fails exactly when the deck is empty; on success returns the card a peek would return, the old deck is that card followed by the new deck, every other deck of every colour is unchanged, the colour has one card fewer, and cards stay in their own decks |
| CardMarket.BoughtCardIsGone | src/main/java/it/polimi/ingsw/supply/MarketBoard.java:180-184 | in a deck without repeated cards, a bought card is no longer in its deck and is never the next card offered |
| CardMarket.AllEmptyFrom | src/main/java/it/polimi/ingsw/supply/MarketBoard.java:192-194 | the scan over the levels reports true exactly when every deck from the given level on is empty |
| CardMarket.IsOutOfStock | src/main/java/it/polimi/ingsw/supply/MarketBoard.java:191-195 | true exactly when all three decks of the colour are empty, that is, when no card of the colour is left |
| CardMarket.DropLowest | src/main/java/it/polimi/ingsw/supply/MarketBoard.java:206-219 | the reference result of a discard keeps one deck per level; what it removes is stated by the three DropLowest lemmas below |
| CardMarket.DropLowestKeepsSuffixes | src/main/java/it/polimi/ingsw/supply/MarketBoard.java:210 | every deck left by a discard is its old deck minus some cards at the front; the surviving cards keep their order |
| CardMarket.DropLowestFlatten | src/main/java/it/polimi/ingsw/supply/MarketBoard.java:206-219 | discarding k cards removes exactly the first min(k, total) cards of the colour, read level 1 first and each deck front first |
| CardMarket.DropLowestLowestFirst | src/main/java/it/polimi/ingsw/supply/MarketBoard.java:209-218 | a higher level loses cards only when every lower level has been emptied |
| CardMarket.DropLowestCompose | src/main/java/it/polimi/ingsw/supply/MarketBoard.java:209-219 | discarding a cards and then b cards is the same as discarding a + b cards |
| CardMarket.DropOneFromLowest | src/main/java/it/polimi/ingsw/supply/MarketBoard.java:210 | when every level below `level` is empty, one removal takes the head of deck `level` |
| CardMarket.DiscardStep | src/main/java/it/polimi/ingsw/supply/MarketBoard.java:210 | a successful pollFirst in the discard loop discards one more card and never exceeds the colour's total |
| CardMarket.DiscardExhausted | src/main/java/it/polimi/ingsw/supply/MarketBoard.java:212-213 | when the loop finds all three levels empty, it has discarded every card of the colour |
| CardMarket.Discard | src/main/java/it/polimi/ingsw/supply/MarketBoard.java:206-221 | the retry loop terminates and leaves the colour's decks as `DropLowest` of min(max(amount, 0), total) cards, with other colours unchanged and one card fewer per discarded card; its result is true exactly when the colour still has a card, both on the early return and on normal completion |
| CardMarket.DiscardOutcome | src/main/java/it/polimi/ingsw/supply/MarketBoard.java:206-220 | a discard of k cards, with k at most the total, lowers the colour's count by k and keeps every card in its own deck |
| MarketBoard.TakeRow | src/main/java/it/polimi/ingsw/supply/MarketBoard.java:251-253 | takeRow is getRow on the tray; the card market is untouched |
| MarketBoard.TakeColumn | src/main/java/it/polimi/ingsw/supply/MarketBoard.java:261-263 | takeColumn is getColumn on the tray; the card market is untouched |
| MarketBoard.GetCost | src/main/java/it/polimi/ingsw/supply/MarketBoard.java:274-276 | fails exactly when the deck is empty, otherwise gives the head card's cost |
| MarketBoard.GetDevelopmentCard | src/main/java/it/polimi/ingsw/supply/MarketBoard.java:287-289 | fails exactly when the deck is empty, otherwise gives the head card |
| MarketBoard.BuyDevelopmentCard | src/main/java/it/polimi/ingsw/supply/MarketBoard.java:300-302 | fails exactly when the deck is empty; on success removes only the head card of that deck and leaves the tray untouched |
| MarketBoard.Discard | src/main/java/it/polimi/ingsw/supply/MarketBoard.java:304-315 | removes min(max(amount, 0), total) cards of the colour, lowest level first and each deck from the front (the colour's decks become `DropLowest` of them); other colours and the tray are untouched, and the result is true exactly when cards of the colour remain |

## Left out

- The random filling of the tray (`ResourcePack.getRandom`) is left out because it depends on randomness and on a class that is not part of this model. `NewTray` takes the 13 drawn marbles as a parameter. The constructor's handling of packs with too few or too many marbles depends on `getRandom`, so it is left out as well.
- The shuffle of the card list is left out because it is randomness. Loading the cards from JSON (`DevelopmentCard.getDevelopmentCardDeck`) is left out because it is file I/O in a class that is not part of this model. `NewDecks` takes the already shuffled list.
- `ResourcePack` internals are not part of this model, and neither is the question of whether `add` counts VOID or FAITHPOINT marbles. A pack is modelled as the multiset of every marble taken, so VOID and FAITHPOINT marbles are included.
- `DevelopmentCard` is not part of this model. A card is a colour, a level, a cost and an `id` that stands for the rest of its content.
- `Color` is not part of this model. It is assumed to be the four colours Green, Blue, Yellow and Purple.
- A level outside 1..3 makes the Java code throw an unchecked `IndexOutOfBoundsException` from `List.get`. This is a caller error, not a handled case, so it is modelled as the precondition `1 <= level <= 3`. The same applies in `NewDecks` to a loaded card whose level is outside 1..3.
- Peeks never change state, and a failed purchase leaves every deck as it was. Both follow from the functions returning no new decks in those cases: the caller keeps the old value.
- The tray is a mutable 2-D array in the Java code and an immutable value here. Each take returns the new tray. Object identity and aliasing are not modelled.
- Both `toString` methods, `getResourceMarketView` and `getCardMarketView` are left out because they only render the board for display.
- The no-argument constructors (`MarketBoard()`, `CardMarket()`) are modelled only through `NewTray`, `NewDecks` and `StandardTrayKeepsStandardMarbles`. Their I/O and randomness are replaced by parameters.
- Concurrency and serialisation of callers are left out. The source has none, and every operation here is a pure step from one state to the next.
- `LeaderboardController.java` is a JavaFX screen controller with no market logic, so it is not part of this model.
