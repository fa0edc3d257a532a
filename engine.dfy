/**
 * The handlers of the server as they run: a game record whose fields are updated
 * in place, list pops and appends written as loops, and the table of games keyed
 * by lobby code. Every handler is proved to perform the step of the Rules module.
 */
module Engine {
  import opened Wrappers
  import opened Cards
  import Rules
  import RulesFacts

  // ---------------------------------------------------------------------------
  // The loops inside the handlers
  // ---------------------------------------------------------------------------

  /** The host check of start_game: is some player both `pid` and the host? */
  method HostIn(players: seq<Rules.Player>, pid: string) returns (found: bool)
    ensures found == Rules.IsHost(players, pid)
  {
    found := false;
    var k := 0;
    while k < |players| && !found
      invariant 0 <= k <= |players|
      invariant found ==> Rules.IsHost(players, pid)
      invariant !found ==> forall j :: 0 <= j < k ==> !(players[j].id == pid && players[j].isHost)
    {
      if players[k].id == pid && players[k].isHost {
        found := true;
      }
      k := k + 1;
    }
  }

  /** The search of play_card for the first card of the hand with id `cid`. */
  method FindCardIndex(hand: seq<Card>, cid: string) returns (r: Option<nat>)
    ensures r == Rules.FindCard(hand, cid)
  {
    var k := 0;
    while k < |hand|
      invariant 0 <= k <= |hand|
      invariant forall j :: 0 <= j < k ==> hand[j].id != cid
    {
      if hand[k].id == cid {
        return Some(k);
      }
      k := k + 1;
    }
    return None;
  }

  /** list.remove: the first element equal to `x` is found and dropped. */
  method RemoveFirst(s: seq<Card>, x: Card) returns (r: seq<Card>)
    requires x in s
    ensures r == Rules.Remove(s, x)
  {
    var k := 0;
    while s[k] != x
      invariant 0 <= k < |s| && x in s[k..]
      invariant x !in s[..k]
      decreases |s| - k
    {
      assert s[k..] == [s[k]] + s[k + 1..];
      assert s[..k + 1] == s[..k] + [s[k]];
      k := k + 1;
    }
    assert s == s[..k] + [x] + s[k + 1..];
    RulesFacts.RemoveFirstOccurrence(s[..k], x, s[k + 1..]);
    r := s[..k] + s[k + 1..];
  }

  /** The deal of one hand: `count` cards popped off the end of the deck, in the order popped, and the rest of the deck. */
  method PopCards(deck: seq<Card>, count: nat) returns (taken: seq<Card>, rest: seq<Card>)
    requires count <= |deck|
    ensures taken == Top(deck, count) && rest == deck[..|deck| - count]
  {
    taken, rest := [], deck;
    for t := 0 to count
      invariant taken == Top(deck, t) && rest == deck[..|deck| - t]
    {
      taken := taken + [rest[|rest| - 1]];
      rest := rest[..|rest| - 1];
    }
  }

  /** The guarded draws of play_card: up to `count` cards popped off the end of the deck onto the hand, stopping when the deck runs out. */
  method PopUpTo(hand: seq<Card>, deck: seq<Card>, count: nat) returns (hand': seq<Card>, deck': seq<Card>)
    ensures hand' == hand + Top(deck, Min(count, |deck|))
    ensures deck' == deck[..|deck| - Min(count, |deck|)]
  {
    hand', deck' := hand, deck;
    for t := 0 to count
      invariant hand' == hand + Top(deck, Min(t, |deck|))
      invariant deck' == deck[..|deck| - Min(t, |deck|)]
    {
      if deck' != [] {
        hand' := hand' + [deck'[|deck'| - 1]];
        deck' := deck'[..|deck'| - 1];
      }
    }
  }

  /**
   * The rotation loop of start_game: pop a card; while it is wild, put it at the
   * bottom of the deck and pop the next. It ends on the last non-wild card.
   */
  method SeedCard(rest: seq<Card>) returns (deck: seq<Card>, start: Card)
    requires HasNonWild(rest)
    ensures start == rest[Rules.SeedIndex(rest)] && !IsWild(start)
    ensures deck == Rules.Rotated(rest, Rules.SeedIndex(rest))
  {
    ghost var j := Rules.SeedIndex(rest);
    ghost var m := |rest| - 1;
    start := rest[|rest| - 1];
    deck := rest[..|rest| - 1];
    assert rest[m + 1..] == [];
    while start.color == WILD
      invariant j <= m < |rest| && start == rest[m]
      invariant deck == rest[m + 1..] + rest[..m]
      decreases m
    {
      assert m != j;
      RotateStep(rest, m);
      deck := [start] + deck;
      start := deck[|deck| - 1];
      deck := deck[..|deck| - 1];
      m := m - 1;
    }
  }

  /** One round of the rotation loop: the popped card goes to the bottom, the next one is popped. */
  lemma RotateStep(rest: seq<Card>, m: nat)
    requires 0 < m < |rest|
    ensures var d := [rest[m]] + (rest[m + 1..] + rest[..m]);
            d[|d| - 1] == rest[m - 1] && d[..|d| - 1] == rest[m..] + rest[..m - 1]
  {
    assert rest[m..] == [rest[m]] + rest[m + 1..];
    assert rest[..m] == rest[..m - 1] + [rest[m - 1]];
  }

  // ---------------------------------------------------------------------------
  // One game
  // ---------------------------------------------------------------------------

  /** The gameState record of a started game, whose fields the handlers assign. */
  class Table {
    var deck: seq<Card>
    var discardPile: seq<Card>
    var currentColor: Option<string>
    var currentValue: string
    var currentPlayerIndex: nat
    var direction: int
    var hasDrawn: bool
    var winner: Option<string>

    function View(): Rules.GameState
      reads this
    {
      Rules.GameState(deck, discardPile, currentColor, currentValue, currentPlayerIndex, direction, hasDrawn, winner)
    }

    /** The refill of draw_card: an empty deck takes the discard pile below its top card, shuffled. */
    method Refill(rand: nat -> nat)
      requires |discardPile| >= 1
      modifies this
      ensures View() == Rules.Refilled(old(View()), rand)
    {
      if deck == [] {
        var top := discardPile[|discardPile| - 1];
        discardPile := discardPile[..|discardPile| - 1];
        deck := discardPile;
        deck := Shuffle(deck, rand);
        discardPile := [top];
      }
    }

    /** deck.pop(): the last card, removed from the deck. */
    method PopTop() returns (card: Card)
      requires deck != []
      modifies this
      ensures card == old(deck)[|old(deck)| - 1]
      ensures View() == old(View()).(deck := old(deck)[..|old(deck)| - 1])
    {
      card := deck[|deck| - 1];
      deck := deck[..|deck| - 1];
    }

    /** The card played goes on the discard pile and sets the colour and value to match. */
    method Place(card: Card, chosenColor: Option<string>)
      modifies this
      ensures View() == old(View()).(discardPile := old(discardPile) + [card],
                                     currentColor := Rules.ColorAfter(card, chosenColor), currentValue := card.value)
    {
      discardPile := discardPile + [card];
      currentColor := if card.color == WILD then chosenColor else Some(card.color);
      currentValue := card.value;
    }

    /** The record start_game builds once the deck is dealt and the starting card is found. */
    constructor Opening(deck: seq<Card>, start: Card)
      ensures View() == Rules.GameState(deck, [start], Some(start.color), start.value, 0, 1, false, None)
    {
      this.deck := deck;
      discardPile := [start];
      currentColor := Some(start.color);
      currentValue := start.value;
      currentPlayerIndex := 0;
      direction := 1;
      hasDrawn := false;
      winner := None;
    }
  }

  /** One entry of the games table: the players, whether it started, and its game record once it has. */
  class Game {
    var players: seq<Rules.Player>
    var started: bool
    var gameState: Table?

    function Model(): Rules.Game
      reads this, gameState
    {
      Rules.Game(players, started, if gameState == null then None else Some(gameState.View()))
    }

    /** create_game: the lobby with its host alone. */
    constructor (pid: string, name: string)
      ensures Model() == Rules.Create(pid, name)
    {
      players := [Rules.Player(pid, name, true, [], false)];
      started := false;
      gameState := null;
    }

    /** The append of join_game, once the game is known not to have started. */
    method AddPlayer(pid: string, name: string)
      requires !started
      modifies this
      ensures Model() == Rules.Join(old(Model()), pid, name).value
    {
      players := players + [Rules.Player(pid, name, false, [], false)];
    }

    /** start_game: a non-host changes nothing; the host deals a fresh shuffled deck. */
    method Start(pid: string, rand: nat -> nat)
      requires Rules.IsHost(players, pid) ==> |players| <= 14
      modifies this
      ensures Model() == Rules.Start(old(Model()), pid, rand)
    {
      ghost var g := Model();
      var isHost := HostIn(players, pid);
      if !isHost {
        return;
      }
      var deck := CreateDeck(rand);
      Rules.ShuffledDealable(|players|, rand);
      StartWith(deck);
      assert Model() == Rules.StartWith(g, deck);
    }

    /** The deal loop, the rotation loop and the new game record of start_game, on the deck `deck`. */
    method StartWith(deck: seq<Card>)
      requires Rules.Dealable(|players|, deck)
      modifies this
      ensures Model() == Rules.StartWith(old(Model()), deck)
    {
      ghost var ps := players;
      var rest := deck;
      for k := 0 to |players|
        invariant |players| == |ps| && rest == deck[..|deck| - 7 * k]
        invariant forall j :: 0 <= j < k ==> players[j] == Rules.Dealt(ps[j], deck, j)
        invariant forall j :: k <= j < |ps| ==> players[j] == ps[j]
      {
        var hand;
        hand, rest := PopCards(rest, 7);
        assert rest == deck[..|deck| - 7 * (k + 1)];
        players := players[k := players[k].(hand := hand, calledUno := false)];
      }
      assert players == Rules.Deal(ps, deck);
      var seedDeck, start := SeedCard(rest);
      gameState := new Table.Opening(seedDeck, start);
      started := true;
    }

    /** play_card, which the Rules module states as Play. */
    method Play(pid: string, cid: string, chosenColor: Option<string>)
      requires Rules.Consistent(Model()) && started
      modifies this, gameState
      ensures gameState == old(gameState)
      ensures Model() == Rules.Play(old(Model()), pid, cid, chosenColor)
    {
      var i := gameState.currentPlayerIndex;
      var player := players[i];
      if player.id != pid {
        return;
      }
      var found := FindCardIndex(player.hand, cid);
      if found.None? {
        return;
      }
      var card := player.hand[found.value];
      var hand := RemoveFirst(player.hand, card);
      players := players[i := player.(hand := hand)];
      gameState.Place(card, chosenColor);
      if |hand| == 0 {
        gameState.winner := Some(player.name);
        return;
      }
      ApplyEffects(card);
    }

    /** The second half of play_card: penalty, UNO flag, card effect, turn advance. */
    method ApplyEffects(card: Card)
      requires Rules.Consistent(Model()) && started
      modifies this, gameState
      ensures gameState == old(gameState)
      ensures Model() == Rules.Effects(old(Model()), card)
    {
      ghost var g := Model();
      var n := |players|;
      var i := gameState.currentPlayerIndex;
      var direction := gameState.direction;
      var deck := Penalize();
      var from := i;
      if card.value == "reverse" {
        direction := direction * -1;
      } else if card.value == "skip" {
        from := Rules.NextPlayerIndex(i, direction, n);
      } else if card.value == "draw2" {
        var v := Rules.NextPlayerIndex(i, direction, n);
        var h;
        h, deck := PopUpTo(players[v].hand, deck, 2);
        players := players[v := players[v].(hand := h)];
      }
      if card.value != "draw2" {
        assert deck[..|deck| - 0] == deck;
      }
      gameState.deck := deck;
      gameState.direction := direction;
      gameState.currentPlayerIndex := Rules.NextPlayerIndex(from, direction, n);
      gameState.hasDrawn := false;
      assert Model() == Rules.Effects(g, card);
    }

    /**
     * The penalty and flag reset of play_card: a player left with one card who had not
     * called UNO takes up to two cards from the deck; the player's flag is cleared.
     * Returns the deck after the penalty, which the record does not hold yet.
     */
    method Penalize() returns (deck: seq<Card>)
      requires Rules.Consistent(Model()) && started
      modifies this
      ensures started && gameState == old(gameState) && gameState != null && |players| == |old(players)|
      ensures var s := gameState.View();
              var p := old(players)[s.currentPlayerIndex];
              var pen := Rules.Penalty(p, s.deck);
              players == old(players)[s.currentPlayerIndex := p.(hand := p.hand + Top(s.deck, pen), calledUno := false)]
              && deck == s.deck[..|s.deck| - pen]
    {
      var i := gameState.currentPlayerIndex;
      var player := players[i];
      var hand;
      hand, deck := player.hand, gameState.deck;
      if |hand| == 1 && !player.calledUno {
        hand, deck := PopUpTo(hand, deck, 2);
      } else {
        assert hand + Top(deck, 0) == hand && deck[..|deck| - 0] == deck;
      }
      players := players[i := player.(hand := hand, calledUno := false)];
    }

    /**
     * draw_card, which the Rules module states as Draw: with an empty deck and only the
     * top card discarded there is nothing to draw, and the draw changes nothing.
     */
    method Draw(pid: string, rand: nat -> nat)
      requires Rules.Consistent(Model()) && started
      modifies this, gameState
      ensures gameState == old(gameState)
      ensures Model() == Rules.Draw(old(Model()), pid, rand)
    {
      var i := gameState.currentPlayerIndex;
      var p := players[i];
      if p.id != pid {
        return;
      }
      if gameState.deck == [] && |gameState.discardPile| < 2 {
        return;
      }
      gameState.Refill(rand);
      ghost var s1 := gameState.View();
      var card := gameState.PopTop();
      players := players[i := p.(hand := p.hand + [card])];
      gameState.hasDrawn := true;
      assert gameState.View() == s1.(deck := s1.deck[..|s1.deck| - 1], hasDrawn := true);
    }

    /** call_uno, which the Rules module states as CallUno. */
    method CallUno(pid: string)
      requires started
      modifies this
      ensures Model() == Rules.CallUno(old(Model()), pid)
    {
      ghost var ps := players;
      for k := 0 to |players|
        invariant |players| == |ps| && started && gameState == old(gameState)
        invariant forall j :: 0 <= j < k ==> players[j] == Rules.Flagged(ps[j], pid)
        invariant forall j :: k <= j < |ps| ==> players[j] == ps[j]
      {
        if players[k].id == pid && |players[k].hand| == 2 {
          players := players[k := players[k].(calledUno := true)];
        }
      }
      assert players == seq(|ps|, k requires 0 <= k < |ps| => Rules.Flagged(ps[k], pid));
    }
  }

  // ---------------------------------------------------------------------------
  // The games table and its handlers
  // ---------------------------------------------------------------------------

  /** The answer join_game sends back. */
  datatype JoinOutcome = Joined | GameNotFound | GameStarted

  /** The global games table, from lobby code to game. */
  class Server {
    var games: map<string, Game>

    constructor ()
      ensures games == map[]
    {
      games := map[];
    }

    /**
     * create_game: a fresh lobby under the code the draws `rand` pick. A code already in
     * use is overwritten; the other entries are kept.
     */
    method CreateGame(pid: string, name: string, rand: nat -> nat) returns (code: string)
      modifies this
      ensures code == GameCode(rand) && games.Keys == old(games.Keys) + {code}
      ensures fresh(games[code]) && games[code].Model() == Rules.Create(pid, name)
      ensures forall c :: c in old(games) && c != code ==> games[c] == old(games[c])
    {
      code := GameCode(rand);
      var game := new Game(pid, name);
      games := games[code := game];
    }

    /** join_game: an unknown code or a started game is refused; otherwise the player is appended. */
    method JoinGame(code: string, pid: string, name: string) returns (outcome: JoinOutcome)
      modifies if code in games then {games[code]} else {}
      ensures code !in games ==> outcome == GameNotFound
      ensures code in games ==>
                (outcome == Joined <==> Rules.Join(old(games[code].Model()), pid, name).Some?)
                && (outcome == Joined ==> games[code].Model() == Rules.Join(old(games[code].Model()), pid, name).value)
                && (outcome != Joined ==> outcome == GameStarted && games[code].Model() == old(games[code].Model()))
    {
      if code !in games {
        return GameNotFound;
      }
      var game := games[code];
      if game.started {
        return GameStarted;
      }
      game.AddPlayer(pid, name);
      outcome := Joined;
    }

    /** start_game: nothing for an unknown code; otherwise Game.Start. */
    method StartGame(code: string, pid: string, rand: nat -> nat)
      requires code in games && Rules.IsHost(games[code].players, pid) ==> |games[code].players| <= 14
      modifies if code in games then {games[code]} else {}
      ensures code in games ==> games[code].Model() == Rules.Start(old(games[code].Model()), pid, rand)
    {
      if code in games {
        games[code].Start(pid, rand);
      }
    }

    /** play_card: nothing for an unknown code; otherwise Game.Play. */
    method PlayCard(code: string, pid: string, cid: string, chosenColor: Option<string>)
      requires code in games ==> Rules.Consistent(games[code].Model()) && games[code].started
      modifies if code in games then {games[code], games[code].gameState} else {}
      ensures code in games ==> games[code].Model() == Rules.Play(old(games[code].Model()), pid, cid, chosenColor)
    {
      if code in games {
        games[code].Play(pid, cid, chosenColor);
      }
    }

    /** draw_card: nothing for an unknown code; otherwise Game.Draw. */
    method DrawCard(code: string, pid: string, rand: nat -> nat)
      requires code in games ==> Rules.Consistent(games[code].Model()) && games[code].started
      modifies if code in games then {games[code], games[code].gameState} else {}
      ensures code in games ==> games[code].Model() == Rules.Draw(old(games[code].Model()), pid, rand)
    {
      if code in games {
        games[code].Draw(pid, rand);
      }
    }

    /** call_uno, on a game that has started. */
    method CallUno(code: string, pid: string)
      requires code in games && games[code].started
      modifies games[code]
      ensures games[code].Model() == Rules.CallUno(old(games[code].Model()), pid)
    {
      games[code].CallUno(pid);
    }
  }
}
