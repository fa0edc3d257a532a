/**
 * The rules engine as pure steps on game values: what each handler of the
 * server does to one game record, with the websocket traffic stripped.
 * The classes in the Engine module perform the same steps in place and are
 * proved to agree with these functions.
 */
module Rules {
  import opened Wrappers
  import opened Cards
  import opened DeckFacts

  // ---------------------------------------------------------------------------
  // The game record
  // ---------------------------------------------------------------------------

  datatype Player = Player(id: string, name: string, isHost: bool, hand: seq<Card>, calledUno: bool)

  /** The record a started game carries; `currentColor` is whatever the last wild play chose, possibly nothing. */
  datatype GameState = GameState(
    deck: seq<Card>,
    discardPile: seq<Card>,
    currentColor: Option<string>,
    currentValue: string,
    currentPlayerIndex: nat,
    direction: int,
    hasDrawn: bool,
    winner: Option<string>)

  /** One entry of the server's game table. The started game shares the `players` list. */
  datatype Game = Game(players: seq<Player>, started: bool, gameState: Option<GameState>)

  /** What every reachable game satisfies: the handlers index the players and the discard pile on it. */
  predicate Consistent(g: Game) {
    (g.started <==> g.gameState.Some?)
    && (g.gameState.Some? ==>
          g.gameState.value.currentPlayerIndex < |g.players|
          && (g.gameState.value.direction == 1 || g.gameState.value.direction == -1)
          && |g.gameState.value.discardPile| >= 1)
  }

  /** The current player of a started game. */
  function Current(g: Game): Player
    requires Consistent(g) && g.started
  {
    g.players[g.gameState.value.currentPlayerIndex]
  }

  // ---------------------------------------------------------------------------
  // Card bookkeeping
  // ---------------------------------------------------------------------------

  /** Every card in the players' hands. */
  function HandCards(ps: seq<Player>): multiset<Card> {
    if ps == [] then multiset{} else HandCards(ps[..|ps| - 1]) + multiset(ps[|ps| - 1].hand)
  }

  /** The cards of a game record: the deck and the discard pile. */
  function StateCards(s: GameState): multiset<Card> {
    multiset(s.deck) + multiset(s.discardPile)
  }

  /** Every card of the game: hands, deck and discard pile. */
  function AllCards(g: Game): multiset<Card> {
    HandCards(g.players) + (if g.gameState.Some? then StateCards(g.gameState.value) else multiset{})
  }

  /** The reachable-state invariant: consistent, and once started the 108 cards of the deck are all in play. */
  predicate Invariant(g: Game) {
    Consistent(g) && (g.started ==> AllCards(g) == multiset(OrderedDeck()))
  }

  // ---------------------------------------------------------------------------
  // Turn arithmetic
  // ---------------------------------------------------------------------------

  /** get_next_player_index: one step in `direction`, wrapping around; Python's `%` is the floor modulus. */
  function NextPlayerIndex(index: int, direction: int, n: nat): (r: nat)
    requires n > 0
    ensures r < n
    ensures 0 <= index + direction < n ==> r == index + direction
    ensures index + direction == n ==> r == 0
    ensures index + direction == -1 ==> r == n - 1
  {
    (index + direction) % n
  }

  // ---------------------------------------------------------------------------
  // Hands
  // ---------------------------------------------------------------------------

  /** The position of the first card with id `cid`, if any: what the generator search in play_card finds. */
  function FindCard(hand: seq<Card>, cid: string): (r: Option<nat>)
    ensures r.None? <==> forall k :: 0 <= k < |hand| ==> hand[k].id != cid
    ensures r.Some? ==> r.value < |hand| && hand[r.value].id == cid
    ensures r.Some? ==> forall k :: 0 <= k < r.value ==> hand[k].id != cid
  {
    if hand == [] then None
    else if hand[0].id == cid then Some(0)
    else match FindCard(hand[1..], cid)
      case None => None
      case Some(k) => Some(k + 1)
  }

  /** list.remove: drops the first element equal to `x`. */
  function Remove<T(==)>(s: seq<T>, x: T): (r: seq<T>)
    requires x in s
    ensures |r| == |s| - 1
    ensures multiset(r) == multiset(s) - multiset{x}
  {
    assert s == [s[0]] + s[1..];
    if s[0] == x then s[1..] else [s[0]] + Remove(s[1..], x)
  }

  function Flagged(p: Player, pid: string): Player {
    if p.id == pid && |p.hand| == 2 then p.(calledUno := true) else p
  }

  // ---------------------------------------------------------------------------
  // Lobby
  // ---------------------------------------------------------------------------

  /** create_game: a lobby holding only its host, with an empty hand. */
  function Create(pid: string, name: string): (g: Game)
    ensures Invariant(g) && !g.started && |g.players| == 1
    ensures g.players[0] == Player(pid, name, true, [], false)
  {
    Game([Player(pid, name, true, [], false)], false, None)
  }

  /** join_game on a game that exists: refused once started, otherwise one more non-host player. */
  function Join(g: Game, pid: string, name: string): Option<Game> {
    if g.started then None
    else Some(g.(players := g.players + [Player(pid, name, false, [], false)]))
  }

  // ---------------------------------------------------------------------------
  // Start
  // ---------------------------------------------------------------------------

  predicate IsHost(players: seq<Player>, pid: string) {
    exists k :: 0 <= k < |players| && players[k].id == pid && players[k].isHost
  }

  /** Player k after the deal: the 7 cards popped after the 7k popped for the players before. */
  function Dealt(p: Player, deck: seq<Card>, k: nat): Player
    requires 7 * k + 7 <= |deck|
  {
    p.(hand := Top(deck[..|deck| - 7 * k], 7), calledUno := false)
  }

  /** The deal loop of start_game: every player, in order, gets 7 cards popped off the end of the deck. */
  function Deal(players: seq<Player>, deck: seq<Card>): (r: seq<Player>)
    requires 7 * |players| <= |deck|
    ensures |r| == |players|
    ensures forall k :: 0 <= k < |r| ==> r[k] == Dealt(players[k], deck, k)
  {
    seq(|players|, k requires 0 <= k < |players| => Dealt(players[k], deck, k))
  }

  /**
   * The position of the starting card: the last non-wild card of the remaining deck.
   * The rotation loop pops the wild cards after it and puts them at the bottom.
   */
  function SeedIndex(s: seq<Card>): (j: nat)
    requires HasNonWild(s)
    ensures j < |s| && !IsWild(s[j])
    ensures forall k :: j < k < |s| ==> IsWild(s[k])
  {
    if !IsWild(s[|s| - 1]) then |s| - 1
    else
      assert HasNonWild(s[..|s| - 1]) by {
        var k :| 0 <= k < |s| && !IsWild(s[k]);
        assert k < |s| - 1 && s[..|s| - 1][k] == s[k];
      }
      SeedIndex(s[..|s| - 1])
  }

  /** The deck left by the rotation loop: the wild cards popped from the end now lie at the bottom, in order. */
  function Rotated(s: seq<Card>, j: nat): seq<Card>
    requires j < |s|
  {
    s[j + 1..] + s[..j]
  }

  /** The fresh game record of start_game, built on the remaining deck `rest`. */
  function Opening(rest: seq<Card>): (s: GameState)
    requires HasNonWild(rest)
  {
    var j := SeedIndex(rest);
    GameState(Rotated(rest, j), [rest[j]], Some(rest[j].color), rest[j].value, 0, 1, false, None)
  }

  /** What dealing to `n` players needs of the deck: the deal and the starting card must not run out. */
  predicate Dealable(n: nat, deck: seq<Card>) {
    7 * n < |deck| && HasNonWild(deck[..|deck| - 7 * n])
  }

  /** A shuffled deck can be dealt to up to 14 players: 10 or more cards remain, and only 8 are wild. */
  lemma ShuffledDealable(n: nat, rand: nat -> nat)
    requires n <= 14
    ensures Dealable(n, Shuffle(OrderedDeck(), rand))
  {
    FullDeckFacts(Shuffle(OrderedDeck(), rand));
    FewWildsDealable(n, Shuffle(OrderedDeck(), rand));
  }

  lemma FewWildsDealable(n: nat, deck: seq<Card>)
    requires n <= 14 && |deck| == 108 && WildCount(deck) == 2 * WILD_COPIES
    ensures Dealable(n, deck)
  {
    NonWildAmongFew(deck, |deck| - 7 * n);
  }

  /** The game after its host deals `deck`: new hands, the opening record, started. */
  function StartWith(g: Game, deck: seq<Card>): Game
    requires Dealable(|g.players|, deck)
  {
    Game(Deal(g.players, deck), true, Some(Opening(deck[..|deck| - 7 * |g.players|])))
  }

  /**
   * start_game with the shuffle draws `rand`: a non-host changes nothing, whatever the
   * roster size; the host (even of a started game) deals a new deck. A host with more
   * than 14 players would exhaust the deck during the deal or leave the rotation loop
   * with only wild cards.
   */
  function Start(g: Game, pid: string, rand: nat -> nat): Game
    requires IsHost(g.players, pid) ==> |g.players| <= 14
  {
    if !IsHost(g.players, pid) then g
    else
      ShuffledDealable(|g.players|, rand);
      StartWith(g, Shuffle(OrderedDeck(), rand))
  }

  // ---------------------------------------------------------------------------
  // Play
  // ---------------------------------------------------------------------------

  /** The active colour after `card` is played: the chosen one for a wild card, else the card's own. */
  function ColorAfter(card: Card, chosenColor: Option<string>): Option<string> {
    if IsWild(card) then chosenColor else Some(card.color)
  }

  /**
   * play_card: the current player `pid` plays the card with id `cid` from their hand.
   * Nothing checks that the card matches the active colour or value.
   */
  function Play(g: Game, pid: string, cid: string, chosenColor: Option<string>): Game
    requires Consistent(g) && g.started
  {
    var p := Current(g);
    if p.id != pid then g
    else match FindCard(p.hand, cid)
      case None => g
      case Some(k) => Placed(g, p.hand[k], chosenColor)
  }

  /** The card leaves the current hand for the discard pile; then the win check or the rest of the turn. */
  function Placed(g: Game, card: Card, chosenColor: Option<string>): Game
    requires Consistent(g) && g.started && card in Current(g).hand
  {
    var s := g.gameState.value;
    var i := s.currentPlayerIndex;
    var p := Current(g);
    var hand := Remove(p.hand, card);
    var s1 := s.(discardPile := s.discardPile + [card], currentColor := ColorAfter(card, chosenColor), currentValue := card.value);
    if hand == [] then
      g.(players := g.players[i := p.(hand := hand)], gameState := Some(s1.(winner := Some(p.name))))
    else
      Effects(g.(players := g.players[i := p.(hand := hand)], gameState := Some(s1)), card)
  }

  /** The number of penalty cards the player owes: two, as far as the deck lasts, when one card is left and no UNO was called. */
  function Penalty(p: Player, deck: seq<Card>): nat {
    if |p.hand| == 1 && !p.calledUno then Min(2, |deck|) else 0
  }

  /** The rest of a turn that did not win: penalty, UNO flag reset, card effect, turn advance. */
  function Effects(g: Game, card: Card): Game
    requires Consistent(g) && g.started
  {
    var s := g.gameState.value;
    var i := s.currentPlayerIndex;
    var n := |g.players|;
    var p := g.players[i];
    var pen := Penalty(p, s.deck);
    var deck1 := s.deck[..|s.deck| - pen];
    var players1 := g.players[i := p.(hand := p.hand + Top(s.deck, pen), calledUno := false)];
    var dir := if card.value == "reverse" then -s.direction else s.direction;
    var from := if card.value == "skip" then NextPlayerIndex(i, s.direction, n) else i;
    var v := NextPlayerIndex(i, s.direction, n);
    var extra := if card.value == "draw2" then Min(2, |deck1|) else 0;
    var players2 := if card.value == "draw2" then players1[v := players1[v].(hand := players1[v].hand + Top(deck1, extra))] else players1;
    g.(players := players2,
       gameState := Some(s.(deck := deck1[..|deck1| - extra], currentPlayerIndex := NextPlayerIndex(from, dir, n),
                            direction := dir, hasDrawn := false)))
  }

  // ---------------------------------------------------------------------------
  // Draw and UNO
  // ---------------------------------------------------------------------------

  /** Whether a draw finds a card: the deck has one, or the discard pile has cards below its top to recycle. */
  predicate HasCardToDraw(s: GameState) {
    s.deck != [] || |s.discardPile| >= 2
  }

  /** The deck and discard pile after refilling: everything below the top card of the discard pile, shuffled by `rand`. */
  function Refilled(s: GameState, rand: nat -> nat): GameState
    requires |s.discardPile| >= 1
  {
    if s.deck != [] then s
    else s.(deck := Shuffle(s.discardPile[..|s.discardPile| - 1], rand), discardPile := [s.discardPile[|s.discardPile| - 1]])
  }

  /**
   * draw_card: the current player takes the last card of the deck, after a refill if it
   * is empty. When neither pile has a card to give (an empty deck and a single discard)
   * the draw gives none and changes nothing; the handler as written fails there instead
   * (DrawAsWritten).
   */
  function Draw(g: Game, pid: string, rand: nat -> nat): Game
    requires Consistent(g) && g.started
  {
    if Current(g).id != pid || !HasCardToDraw(g.gameState.value) then g
    else TakeCard(g, Refilled(g.gameState.value, rand))
  }

  /**
   * draw_card as written: with an empty deck and a single discard the refill leaves the
   * deck empty and the pop fails (None); every other draw is Draw.
   */
  function DrawAsWritten(g: Game, pid: string, rand: nat -> nat): (r: Option<Game>)
    requires Consistent(g) && g.started
    ensures r.None? <==> Current(g).id == pid && g.gameState.value.deck == [] && |g.gameState.value.discardPile| == 1
  {
    if Current(g).id == pid && !HasCardToDraw(g.gameState.value) then None
    else Some(Draw(g, pid, rand))
  }

  /** The current player pops the last card of the deck of the record `s` into their hand; hasDrawn is set. */
  function TakeCard(g: Game, s: GameState): Game
    requires Consistent(g) && g.started && |s.deck| >= 1
  {
    var i := g.gameState.value.currentPlayerIndex;
    var p := Current(g);
    g.(players := g.players[i := p.(hand := p.hand + [s.deck[|s.deck| - 1]])],
       gameState := Some(s.(deck := s.deck[..|s.deck| - 1], hasDrawn := true)))
  }

  /** call_uno: every player with id `pid` holding exactly two cards gets the flag, whoever's turn it is. */
  function CallUno(g: Game, pid: string): Game
    requires g.started
  {
    g.(players := seq(|g.players|, k requires 0 <= k < |g.players| => Flagged(g.players[k], pid)))
  }
}
