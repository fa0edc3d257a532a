# UNO rules engine

A model of the rules engine of a small websocket UNO server. The server keeps a
table of games keyed by four-character lobby codes. Each game holds its players
(id, name, host flag, hand, UNO flag), a `started` flag and, once the host has
started it, a game record:
- deck and discard pile;
- active colour and value;
- current player index and direction;
- `hasDrawn`;
- winner.

Six handlers update one game each: create, join, start, play a card, draw a card
and call UNO.

The model has two layers.

- **Rules** states every handler as a pure step on a game value
  (`Rules.Join`, `Rules.Start`, `Rules.Play`, `Rules.Draw`, `Rules.CallUno`).
  - The lemmas in **RulesFacts**, **PlayFacts** and **DrawFacts** prove what each
    step promises:
    - the guards that make a handler a no-op;
    - the deal;
    - the colour rule and the win;
    - the UNO penalty, the card effects and the turn order;
    - the refill of an empty deck.
  - They also prove the reachable-state invariant `Rules.Invariant`: the 108 cards
    of the deck stay in play, split among the hands, the deck and the discard pile,
    and the indices stay in range.
  - `Rules.Invariant` holds for a new game and is preserved by every handler.
- **Engine** performs the same handlers the way the server does:
  - `Engine.Table` is the game record, with fields assigned in place.
  - `Engine.Game` holds the players and the record.
  - `Engine.Server` is the games table.
  - The handlers are methods with the pops, appends, searches and the
    wild-card rotation written as loops.
  - Each handler is proved to perform its `Rules` step.

**Cards** builds the deck in the order of the two loops of `create_deck`.
`random.shuffle` is modelled as the Fisher–Yates shuffle it is, driven by a
parameter `rand: nat -> nat` that stands for the random draws. **DeckFacts**
proves the deck's contents:
- 108 cards;
- per colour one "0" and two of every other value;
- four "wild" and four "wild4";
- distinct ids.

Where the code departs from the usual UNO rules, the model follows the code:
- A draw2 gives the next player up to two cards, and that same player then has the
  turn. It is not skipped.
- A win only records the winner. Later moves are not blocked.
- A start does not check `started`: the host can restart a running game.
- No play is checked against the active colour or value.
- The UNO penalty and draw2 stop when the deck runs out. They never recycle the
  discard pile.
- The deck has 100 coloured cards (76 numbered and 24 action cards) and 8 wild
  cards, 108 in all.

One place departs from the code: a draw that finds no card at all (an empty deck
and a single discarded card) changes nothing in the model, where the handler fails.
See "## Findings".

## Model

| member | source | states |
|---|---|---|
| Cards.CreateDeck | main.py:23-36 | the deck is the shuffle of the 108 cards the colour/value loop and the wild loop append, in that order |
| Cards.AppendColor | main.py:26-29 | one pass of the inner loop appends copy 1 of each value, and copy 2 unless the value is "0" |
| Cards.Shuffle | main.py:35 | the shuffle keeps the length and the multiset of cards |
| Cards.TopAt | main.py:117 | the k-th card popped is the k-th from the end of the pile |
| Cards.TopSplit | main.py:117 | popping cards only moves them: the popped cards and the rest are the pile's cards |
| Cards.GameCode | main.py:19-21 | a lobby code has four characters, each from the 32-character alphabet |
| Cards.OrderedDeck | main.py:24-33 | the list the two loops of create_deck build before the shuffle; DeckFacts.DeckSize, DeckFaces and DeckIdsDistinct state its contents |
| Cards.ShuffleFrom | main.py:35 | the Fisher–Yates loop from a given position down keeps the length and the multiset and leaves the positions above it alone |
| Cards.Top | main.py:117 | the cards successive pops take off the end of a pile, as many as asked; Cards.TopAt and Cards.TopSplit state which cards they are |
| DeckFacts.ConstantsFacts | main.py:13-14 | four distinct colours, thirteen distinct values including "0", none containing '-' or equal to "wild"/"wild4" |
| DeckFacts.DeckSize | main.py:23-33 | 100 coloured cards and 8 wild cards, 108 in all |
| DeckFacts.DeckFaces | main.py:23-33 | every colour has one "0" and two of every other value, there are four "wild" and four "wild4", and nothing else |
| DeckFacts.DeckIdsDistinct | main.py:27-33 | no two cards of the deck share an id |
| DeckFacts.FaceCountPerm | main.py:35 | the number of cards of each colour and value does not depend on the order |
| DeckFacts.DistinctOnce | main.py:27-33 | a list whose ids are distinct holds no card twice |
| DeckFacts.DistinctPerm | main.py:35 | distinct ids stay distinct under any reordering |
| DeckFacts.CreatedDeck | main.py:23-36 | the shuffled deck create_deck returns has 108 cards with distinct ids: per colour one "0" and two of every other value, four "wild" and four "wild4", nothing else |
| DeckFacts.OrderedDeckWilds | main.py:31-33 | eight cards of the deck are wild |
| DeckFacts.WildCountPerm | main.py:35 | the number of wild cards does not depend on the order |
| DeckFacts.FullDeckFacts | main.py:35 | any shuffle of the deck has 108 cards, eight of them wild |
| DeckFacts.NonWildAmongFew | main.py:120-123 | more cards than wild ones means a non-wild card is among them, so the rotation loop ends |
| Rules.NextPlayerIndex | main.py:38-40 | the next index is in range; it steps by the direction and wraps past either end (Python's floor `%`) |
| Rules.FindCard | main.py:155-157 | no result exactly when no card has the id; otherwise the first card with that id |
| Rules.Remove | main.py:158 | one card fewer, and exactly one copy of the card leaves the hand's multiset |
| Rules.SeedIndex | main.py:120-123 | the starting card is the last non-wild card; everything after it is wild |
| Rules.Create | main.py:66-76 | a new game holds only its host, with an empty hand, is not started and satisfies the invariant |
| Rules.Join | main.py:93-100 | join_game on a known code: nothing on a started game, else one appended player; RulesFacts.JoinEffect and JoinInvariant state its properties |
| Rules.Deal | main.py:116-118 | the deal loop gives player k the 7 cards popped after the 7k popped for the players before, with the UNO flag cleared |
| Rules.Opening | main.py:120-135 | the record start_game builds on the deck left after the deal; RulesFacts.OpeningCards and StartWithDeals state its properties |
| Rules.StartWith | main.py:115-136 | the host's start on a given shuffled deck: dealt hands, the opening record, started; RulesFacts.StartWithCards and StartWithDeals state its properties |
| Rules.Start | main.py:108-136 | start_game: a non-host changes nothing, the host deals a fresh shuffled deck; RulesFacts.StartNonHost, StartDeals and StartInvariant state its properties |
| Rules.Play | main.py:146-186 | play_card: the turn and hand guards, then Placed; PlayFacts.PlayRefused, PlayMovesCard, PlayWins, PlayTurn, PlayHands and PlayInvariant state its properties |
| Rules.Placed | main.py:158-166 | the card moves to the discard pile, colour and value are set, then the win or Effects; PlayFacts.PlacedMoves and PlacedConserves state its properties |
| Rules.Penalty | main.py:168-171 | the number of penalty cards: min(2, deck size) for one card left without a UNO call, else none; PlayFacts.UnoPenalty states it |
| Rules.Effects | main.py:168-186 | penalty, flag reset, card effect and turn advance; PlayFacts.EffectsKeeps, EffectsConserves and EffectsHands state its properties |
| Rules.Refilled | main.py:202-206 | the recycling of the discard pile into an empty deck; DrawFacts.RefilledCards and DrawRefill state its properties |
| Rules.TakeCard | main.py:208-209 | the current player pops the deck's last card into the hand and hasDrawn is set; DrawFacts.DrawTakes and TakeCardConserves state its properties |
| Rules.Draw | main.py:193-209 | draw_card, with a draw that finds no card changing nothing; DrawFacts.DrawRefused, DrawTakes and DrawInvariant state its properties |
| Rules.DrawAsWritten | main.py:202-208 | draw_card as the code has it fails exactly when the current player draws from an empty deck with a single discard; otherwise it is Draw |
| Rules.CallUno | main.py:216-220 | call_uno flags every player with the sender's id and two cards; RulesFacts.CallUnoFlags states its properties |
| Rules.ShuffledDealable | main.py:115-123 | a shuffled deck always deals up to 14 players and leaves a non-wild starting card |
| RulesFacts.NextIndexStep | main.py:38-40 | forward wraps from the last player to 0, backward from 0 to the last player |
| RulesFacts.TwoPlayersReverse | main.py:38-40 | with two players both directions give the same next player, the other one |
| RulesFacts.ReverseMatters | main.py:175-176 | with three or more players reversing changes who is next |
| RulesFacts.RemoveFirstOccurrence | main.py:158 | list.remove drops exactly the first occurrence and keeps the order of the rest |
| RulesFacts.GiveTop | main.py:169-171 | moving popped deck cards onto a hand keeps the cards of hands and deck |
| RulesFacts.JoinEffect | main.py:89-100 | join is refused exactly on a started game; otherwise one non-host player with an empty hand is appended and nothing else changes |
| RulesFacts.JoinInvariant | main.py:94-100 | a join preserves the invariant |
| RulesFacts.StartNonHost | main.py:112-113 | a start by anyone but a host changes nothing, whatever the roster size |
| RulesFacts.DealAll | main.py:115-118 | the dealt hands and the cards left below them are the deck's cards |
| RulesFacts.OpeningCards | main.py:120-135 | the rotation loop only reorders: the opening record holds the cards left after the deal |
| RulesFacts.StartWithCards | main.py:115-136 | after the deal the hands, deck and discard pile hold exactly the dealt deck's cards |
| RulesFacts.StartWithDeals | main.py:115-136 | 7 cards and a cleared flag per player, roster kept, one non-wild discard setting colour and value, index 0, direction 1, no winner, started |
| RulesFacts.StartDeals | main.py:105-136 | a host's start does all that on the shuffled deck, leaving 108 − 7n − 1 cards to draw |
| RulesFacts.StartInvariant | main.py:115-136 | a host's start establishes the invariant: the 108 cards are in play |
| RulesFacts.CallUnoFlags | main.py:218-220 | the flag is set exactly for players with the sender's id and two cards; hands, roster and record are unchanged |
| RulesFacts.CallUnoConserves | main.py:218-220 | call_uno moves no card |
| RulesFacts.CallUnoInvariant | main.py:218-220 | call_uno preserves the invariant |
| PlayFacts.EffectsKeeps | main.py:168-186 | the rest of the turn keeps the discard pile, colour, value, winner and roster |
| PlayFacts.EffectsConserves | main.py:168-183 | penalty and draw2 cards move from the deck to hands; no card is lost |
| PlayFacts.PlacedMoves | main.py:158-162 | the card tops the discard pile; the colour is the chosen one exactly for a wild, else the card's |
| PlayFacts.PlacedConserves | main.py:158-186 | the played card moves from the hand to the discard pile; no card is lost |
| PlayFacts.PlayRefused | main.py:151-157 | a play changes nothing exactly when the sender is not the current player or holds no card with that id |
| PlayFacts.PlayMovesCard | main.py:155-162 | the first card with the id leaves the hand and tops the discard pile, setting colour and value |
| PlayFacts.PlayWins | main.py:164-166 | playing the last card records the winner and leaves the deck, turn, direction and hasDrawn alone |
| PlayFacts.PlayTurn | main.py:173-186 | reverse negates the direction, skip passes one extra player, any other card passes the turn once; hasDrawn cleared; winner kept |
| PlayFacts.PlayHands | main.py:168-183 | the hands and deck after a play that does not win: penalty cards, cleared flag, draw2 cards for the next player, others unchanged |
| PlayFacts.EffectsHands | main.py:168-183 | the same hands and deck, for the second half of the turn alone |
| PlayFacts.UnoPenalty | main.py:168-171 | going down to one card without calling UNO adds min(2, deck size) cards |
| PlayFacts.NextIndexMoves | main.py:38-40 | with two or more players the next index is another player |
| PlayFacts.UnoAvoidsPenalty | main.py:168-173 | calling UNO at two cards and then playing leaves exactly one card |
| PlayFacts.PlayConserves | main.py:151-186 | a play moves cards but loses or creates none |
| PlayFacts.PlayInvariant | main.py:151-186 | a play preserves the invariant |
| DrawFacts.RefilledCards | main.py:202-206 | recycling the discard pile keeps the record's cards and leaves all but the top card in the deck |
| DrawFacts.DrawRefused | main.py:198-208 | a draw changes nothing exactly when the sender is not the current player, or the deck is empty with a single discard |
| DrawFacts.DrawTakes | main.py:208-209 | the hand gains exactly the last card of the (refilled) deck; the turn does not pass; hasDrawn is set; nothing else changes |
| DrawFacts.DrawRefill | main.py:202-206 | an empty deck becomes the shuffled discard pile below its top card, and the top card alone stays discarded |
| DrawFacts.DrawConserves | main.py:202-209 | a draw loses or creates no card |
| DrawFacts.TakeCardConserves | main.py:208 | popping the deck into the current hand keeps the game's cards |
| DrawFacts.DrawInvariant | main.py:198-209 | every draw preserves the invariant |
| DrawFacts.Draws | main.py:193-209 | any number of draws in a row keeps the game consistent, the roster and the turn |
| DrawFacts.DrawsFromDeck | main.py:202-209 | the current player drawing m cards from a deck that holds them takes its last m cards; the discard pile stays |
| DrawFacts.DrawsExhaust | main.py:202-208 | after drawing the whole deck over a single discard, the next draw as written fails and the corrected one changes nothing |
| DrawFacts.StartIsFresh | main.py:115-136 | a host's start leaves the first player to move, one discard and 108 − 7n − 1 cards to draw |
| DrawFacts.DrawFailsAfterStart | main.py:202-208 | from a freshly started game, the first player's 108 − 7n − 1 draws empty the deck and the next draw as written fails |
| Engine.HostIn | main.py:112 | the host check finds a player who has the id and is the host |
| Engine.FindCardIndex | main.py:155 | the search returns the first position of the id, or nothing |
| Engine.RemoveFirst | main.py:158 | the loop removes the first equal card, as list.remove does |
| Engine.PopCards | main.py:117 | the loop pops `count` cards in order and leaves the rest of the deck |
| Engine.PopUpTo | main.py:169-171 | the guarded pop loop moves min(count, deck size) cards to the hand |
| Engine.SeedCard | main.py:120-123 | the rotation loop ends on the last non-wild card and moves the wild cards after it to the bottom |
| Engine.Table.Refill | main.py:202-206 | the in-place refill performs the Rules refill |
| Engine.Table.PopTop | main.py:208 | the pop returns the deck's last card and removes it |
| Engine.Table.Place | main.py:159-162 | the card is appended to the discard pile, and colour and value are set |
| Engine.Table.Opening | main.py:125-135 | the fresh record: one discard, its colour and value, index 0, direction 1 |
| Engine.Game.constructor | main.py:66-76 | a new game is Rules.Create |
| Engine.Game.AddPlayer | main.py:94-100 | the append is Rules.Join on a game not started |
| Engine.Game.Start | main.py:112-136 | the in-place start is Rules.Start; only the host path asks for at most 14 players |
| Engine.Game.StartWith | main.py:115-136 | the deal and rotation loops on a given deck are Rules.StartWith |
| Engine.Game.Play | main.py:151-186 | the in-place play is Rules.Play |
| Engine.Game.ApplyEffects | main.py:168-186 | the penalty, effect and advance in place are Rules.Effects |
| Engine.Game.Penalize | main.py:168-173 | the penalty loop adds Rules.Penalty cards and clears the flag |
| Engine.Game.Draw | main.py:198-209 | the in-place draw is Rules.Draw, with the guard for a draw that finds no card |
| Engine.Game.CallUno | main.py:218-220 | the flag loop is Rules.CallUno |
| Engine.Server.constructor | main.py:10 | the games table starts empty |
| Engine.Server.CreateGame | main.py:59-76 | a fresh lobby under the drawn code, overwriting that code, other codes kept |
| Engine.Server.JoinGame | main.py:86-100 | unknown code, started game, or Rules.Join on the game |
| Engine.Server.StartGame | main.py:108-136 | nothing for an unknown code; otherwise Rules.Start |
| Engine.Server.PlayCard | main.py:146-186 | nothing for an unknown code; otherwise Rules.Play |
| Engine.Server.DrawCard | main.py:193-209 | nothing for an unknown code; otherwise Rules.Draw |
| Engine.Server.CallUno | main.py:216-220 | Rules.CallUno on the addressed game |

## Left out

- Websocket traffic: `broadcast`, `player_connections`, every `send`, the receive loop of `handler` and the server setup in `main`. These are I/O around the logic.
- asyncio interleaving. Each handler is one atomic step.
- JSON decoding of the messages. The handlers take their fields as parameters.
- Randomness. `random.choice` in `generate_game_code` and the draws of `random.shuffle` are the parameter `rand`. The code never checks that a lobby code is unused, and the model does not claim it is.
- `random.shuffle` is a function on sequences (`Cards.Shuffle`), not an in-place loop on a list.
- The game record's `players` entry is the same list object as the game's `players`. It is modelled as the one `players` field of `Engine.Game`, and `Engine.Table` has no copy.
  - Player records are values in that sequence. An update to a player replaces that entry.
  - The source never lets two entries share a record, so nothing depends on that aliasing.
- Rules.Start, Engine.Game.Start and Engine.Server.StartGame require at most 14 players when the sender is a host. A non-host start is modelled for any roster. With 16 or more players the host's deal pops from an empty list. With 15, the rotation loop never ends when the three cards left are all wild; the loop has no `await`, so that would stall the whole server, not only one game.
  - A 15-player start with a non-wild card among those three is not modelled.
- Play, draw and call_uno require a started game. The record is `None` before the start, and the source would fail indexing it.
- Engine.Server.CallUno requires the code to be in the table. The source indexes the table without checking it.
- Engine.Server.JoinGame, StartGame, PlayCard, DrawCard and CallUno state their effect on the addressed game only. The model keeps no invariant that different codes hold different Game objects, so it does not state that the other games are unchanged.
- A wild card played without a chosen colour leaves the active colour empty (`None`). That is modelled as it is, not ruled out.

## Findings

| source | as written | input that shows it | evidently intended | confidence | as-written member | corrected member |
|---|---|---|---|---|---|---|
| main.py:202-208 | an empty deck is refilled from the discard pile below its top card without checking that any card is there; with a single discard the deck stays empty and `pop()` raises IndexError | start a game with n players; the first player sends draw_card 108 − 7n − 1 times (a draw never passes the turn), then once more | a draw that finds no card in either pile gives none and changes nothing | not executed | Rules.DrawAsWritten, DrawFacts.DrawFailsAfterStart | Rules.Draw, DrawFacts.DrawInvariant |
