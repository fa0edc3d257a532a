/**
 * Properties of draw_card: the turn guard, the refill of an empty deck from the
 * discard pile, the one card drawn, and conservation of the 108 cards.
 */
module DrawFacts {
  import opened Cards
  import opened Rules
  import opened RulesFacts

  /** The refill keeps the cards of the record: the discard pile below its top card becomes the deck. */
  lemma RefilledCards(s: GameState, rand: nat -> nat)
    requires |s.discardPile| >= 1
    ensures StateCards(Refilled(s, rand)) == StateCards(s)
    ensures |Refilled(s, rand).deck| == if s.deck != [] then |s.deck| else |s.discardPile| - 1
  {
    if s.deck == [] {
      var pile := s.discardPile;
      assert pile == pile[..|pile| - 1] + [pile[|pile| - 1]];
    }
  }

  /**
   * draw_card does nothing exactly when the sender is not the current player, or when
   * the deck is empty and the discard pile holds only its top card.
   */
  lemma DrawRefused(g: Game, pid: string, rand: nat -> nat)
    requires Consistent(g) && g.started
    ensures Draw(g, pid, rand) == g
            <==> Current(g).id != pid || (g.gameState.value.deck == [] && |g.gameState.value.discardPile| == 1)
  {
    if Current(g).id == pid && HasCardToDraw(g.gameState.value) {
      RefilledCards(g.gameState.value, rand);
      var i := g.gameState.value.currentPlayerIndex;
      assert |Draw(g, pid, rand).players[i].hand| == |Current(g).hand| + 1;
    }
  }

  /**
   * A draw by the current player: the hand grows by exactly one card, the last card of
   * the deck after the refill. The turn does not pass, hasDrawn is set, and nothing else
   * of the players or the record changes.
   */
  lemma DrawTakes(g: Game, pid: string, rand: nat -> nat)
    requires Consistent(g) && g.started && Current(g).id == pid && HasCardToDraw(g.gameState.value)
    ensures var s := g.gameState.value;
            var i := s.currentPlayerIndex;
            var s1 := Refilled(s, rand);
            var r := Draw(g, pid, rand);
            var s' := r.gameState.value;
            Consistent(r) && r.started && SameRoster(g.players, r.players)
            && r.players[i] == Current(g).(hand := Current(g).hand + [s1.deck[|s1.deck| - 1]])
            && (forall k :: 0 <= k < |g.players| && k != i ==> r.players[k] == g.players[k])
            && s'.currentPlayerIndex == i && s'.hasDrawn && s'.direction == s.direction
            && s'.currentColor == s.currentColor && s'.currentValue == s.currentValue && s'.winner == s.winner
            && s'.deck == s1.deck[..|s1.deck| - 1] && s'.discardPile == s1.discardPile
  {
    RefilledCards(g.gameState.value, rand);
  }

  /**
   * The deck a draw takes from: the deck itself when it has cards; otherwise the discard
   * pile below its top card, shuffled, with the top card left as the only discard. The
   * card drawn is the last of that deck.
   */
  lemma DrawRefill(s: GameState, rand: nat -> nat)
    requires |s.discardPile| >= 1 && HasCardToDraw(s)
    ensures var s1 := Refilled(s, rand);
            var card := s1.deck[|s1.deck| - 1];
            s1.currentPlayerIndex == s.currentPlayerIndex && s1.direction == s.direction && s1.hasDrawn == s.hasDrawn
            && s1.currentColor == s.currentColor && s1.currentValue == s.currentValue && s1.winner == s.winner
            && (s.deck != [] ==> s1.deck == s.deck && s1.discardPile == s.discardPile)
            && (s.deck == [] ==>
                  s1.deck == Shuffle(s.discardPile[..|s.discardPile| - 1], rand)
                  && multiset(s1.deck[..|s1.deck| - 1]) + multiset{card} == multiset(s.discardPile[..|s.discardPile| - 1])
                  && s1.discardPile == [s.discardPile[|s.discardPile| - 1]])
  {
    RefilledCards(s, rand);
    var s1 := Refilled(s, rand);
    assert s1.deck == s1.deck[..|s1.deck| - 1] + [s1.deck[|s1.deck| - 1]];
  }

  /** No card is lost or created by a draw. */
  lemma DrawConserves(g: Game, pid: string, rand: nat -> nat)
    requires Consistent(g) && g.started
    ensures AllCards(Draw(g, pid, rand)) == AllCards(g)
  {
    if Current(g).id == pid && HasCardToDraw(g.gameState.value) {
      RefilledCards(g.gameState.value, rand);
      TakeCardConserves(g, Refilled(g.gameState.value, rand));
    }
  }

  /** Taking the last card of a record that holds the game's deck and discard cards keeps all the cards. */
  lemma TakeCardConserves(g: Game, s: GameState)
    requires Consistent(g) && g.started && |s.deck| >= 1 && StateCards(s) == StateCards(g.gameState.value)
    ensures AllCards(TakeCard(g, s)) == AllCards(g)
  {
    var i := g.gameState.value.currentPlayerIndex;
    TakeLast(g.players, i, s);
    var r := TakeCard(g, s);
    assert r.players == g.players[i := g.players[i].(hand := g.players[i].hand + [s.deck[|s.deck| - 1]])];
    assert r.gameState.value == s.(deck := s.deck[..|s.deck| - 1], hasDrawn := true);
  }

  /** Moving the last card of the deck to player i's hand keeps the cards of the players and the record. */
  lemma TakeLast(ps: seq<Player>, i: nat, s: GameState)
    requires i < |ps| && |s.deck| >= 1
    ensures var card := s.deck[|s.deck| - 1];
            HandCards(ps[i := ps[i].(hand := ps[i].hand + [card])])
            + StateCards(s.(deck := s.deck[..|s.deck| - 1], hasDrawn := true))
            == HandCards(ps) + StateCards(s)
  {
    var card := s.deck[|s.deck| - 1];
    var q := ps[i].(hand := ps[i].hand + [card]);
    assert Top(s.deck, 1) == [card];
    GiveTop(ps, i, q, s.deck, 1);
    DrawShift(HandCards(ps[i := q]), multiset(s.deck[..|s.deck| - 1]), HandCards(ps),
              multiset(s.deck), multiset(s.discardPile), StateCards(s));
  }

  /** The multiset step of TakeLast. */
  lemma DrawShift(after: multiset<Card>, rest: multiset<Card>, before: multiset<Card>, deck: multiset<Card>,
                  pile: multiset<Card>, cards: multiset<Card>)
    requires after + rest == before + deck && deck + pile == cards
    ensures after + (rest + pile) == before + cards
  {
    forall x ensures (after + (rest + pile))[x] == (before + cards)[x] {
      assert (after + rest)[x] == (before + deck)[x];
      assert (deck + pile)[x] == cards[x];
    }
  }

  /** Every draw, even one that finds no card, keeps the invariant. */
  lemma DrawInvariant(g: Game, pid: string, rand: nat -> nat)
    requires Invariant(g) && g.started
    ensures Invariant(Draw(g, pid, rand))
  {
    DrawConserves(g, pid, rand);
    if Current(g).id == pid && HasCardToDraw(g.gameState.value) {
      DrawTakes(g, pid, rand);
    }
  }

  // ---------------------------------------------------------------------------
  // The draw that fails as written
  // ---------------------------------------------------------------------------

  /** `m` draws in a row by `pid`. */
  function Draws(g: Game, pid: string, rand: nat -> nat, m: nat): (r: Game)
    requires Consistent(g) && g.started
    ensures Consistent(r) && r.started && SameRoster(g.players, r.players)
    ensures r.gameState.value.currentPlayerIndex == g.gameState.value.currentPlayerIndex
    decreases m
  {
    if m == 0 then g
    else
      var g1 := Draw(g, pid, rand);
      assert Consistent(g1) && g1.started && SameRoster(g.players, g1.players)
             && g1.gameState.value.currentPlayerIndex == g.gameState.value.currentPlayerIndex by {
        if Current(g).id == pid && HasCardToDraw(g.gameState.value) {
          DrawTakes(g, pid, rand);
        }
      }
      Draws(g1, pid, rand, m - 1)
  }

  /** The current player drawing `m` cards from a deck that holds them takes them off the end; the discard pile stays. */
  lemma {:induction false} DrawsFromDeck(g: Game, pid: string, rand: nat -> nat, m: nat)
    requires Consistent(g) && g.started && Current(g).id == pid && m <= |g.gameState.value.deck|
    ensures var s' := Draws(g, pid, rand, m).gameState.value;
            s'.deck == g.gameState.value.deck[..|g.gameState.value.deck| - m]
            && s'.discardPile == g.gameState.value.discardPile
    decreases m
  {
    if m > 0 {
      var s := g.gameState.value;
      var g1 := Draw(g, pid, rand);
      DrawTakes(g, pid, rand);
      assert g1.gameState.value.deck == s.deck[..|s.deck| - 1];
      assert Current(g1).id == pid;
      DrawsFromDeck(g1, pid, rand, m - 1);
      assert s.deck[..|s.deck| - 1][..|s.deck| - 1 - (m - 1)] == s.deck[..|s.deck| - m];
    }
  }

  /**
   * Once the current player has drawn the whole deck while a single card lies on the
   * discard pile, the next draw as written fails; the corrected Draw changes nothing.
   */
  lemma DrawsExhaust(g: Game, pid: string, draws: nat -> nat)
    requires Consistent(g) && g.started && Current(g).id == pid && |g.gameState.value.discardPile| == 1
    ensures var g2 := Draws(g, pid, draws, |g.gameState.value.deck|);
            DrawAsWritten(g2, pid, draws).None? && Draw(g2, pid, draws) == g2
  {
    var m := |g.gameState.value.deck|;
    DrawsFromDeck(g, pid, draws, m);
    var g2 := Draws(g, pid, draws, m);
    assert Current(g2).id == pid;
    DrawRefused(g2, pid, draws);
  }

  /** A game right after a start with `n` players: the first player moves, one card is discarded, 108 - 7n - 1 are left to draw. */
  predicate FreshlyStarted(g: Game, n: nat) {
    Consistent(g) && g.started && |g.players| > 0 && g.gameState.value.currentPlayerIndex == 0
    && |g.gameState.value.discardPile| == 1 && |g.gameState.value.deck| + 7 * n + 1 == 108
  }

  /** A host's start leaves the game freshly started. */
  lemma StartIsFresh(g: Game, pid: string, rand: nat -> nat)
    requires IsHost(g.players, pid) && |g.players| <= 14
    ensures FreshlyStarted(Start(g, pid, rand), |g.players|)
  {
    StartDeals(g, pid, rand);
  }

  /**
   * The handler as written fails in a reachable game: right after a start (StartIsFresh),
   * the first player draws every card of the deck (108 - 7n - 1 draws, none of which
   * passes the turn); the discard pile still holds only the starting card, so the next
   * draw refills the deck with nothing and pops an empty list. The corrected Draw gives
   * no card there and changes nothing.
   */
  lemma DrawFailsAfterStart(g: Game, n: nat, draws: nat -> nat)
    requires FreshlyStarted(g, n)
    ensures var first := g.players[0].id;
            var g2 := Draws(g, first, draws, 108 - 7 * n - 1);
            DrawAsWritten(g2, first, draws).None? && Draw(g2, first, draws) == g2
  {
    DrawsExhaust(g, g.players[0].id, draws);
  }
}
