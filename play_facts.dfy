/**
 * Properties of play_card: the guards that make it a no-op, the card's move to
 * the discard pile and the colour rule, the win, the UNO penalty, the card
 * effects and the turn advance, and conservation of the 108 cards.
 */
module PlayFacts {
  import opened Wrappers
  import opened Cards
  import opened Rules
  import opened RulesFacts

  // ---------------------------------------------------------------------------
  // Effects and Placed, the two halves of a successful play
  // ---------------------------------------------------------------------------

  /** The rest of the turn leaves the discard pile, the active colour and value, the winner and the roster alone. */
  lemma EffectsKeeps(g: Game, card: Card)
    requires Consistent(g) && g.started
    ensures var r := Effects(g, card);
            Consistent(r) && r.started && SameRoster(g.players, r.players)
            && r.gameState.value.discardPile == g.gameState.value.discardPile
            && r.gameState.value.currentColor == g.gameState.value.currentColor
            && r.gameState.value.currentValue == g.gameState.value.currentValue
            && r.gameState.value.winner == g.gameState.value.winner
  {
  }

  /** The penalty and the draw2 cards both come off the deck and go to hands. */
  lemma EffectsConserves(g: Game, card: Card)
    requires Consistent(g) && g.started
    ensures AllCards(Effects(g, card)) == AllCards(g)
  {
    var s := g.gameState.value;
    var i := s.currentPlayerIndex;
    var n := |g.players|;
    var p := g.players[i];
    var pen := Penalty(p, s.deck);
    var deck1 := s.deck[..|s.deck| - pen];
    var players1 := g.players[i := p.(hand := p.hand + Top(s.deck, pen), calledUno := false)];
    var v := NextPlayerIndex(i, s.direction, n);
    var extra := if card.value == "draw2" then Min(2, |deck1|) else 0;
    var players2 := if card.value == "draw2" then players1[v := players1[v].(hand := players1[v].hand + Top(deck1, extra))] else players1;
    var r := Effects(g, card);
    GiveTop(g.players, i, players1[i], s.deck, pen);
    if card.value == "draw2" {
      GiveTop(players1, v, players2[v], deck1, extra);
    } else {
      assert deck1[..|deck1| - extra] == deck1;
    }
    assert r.players == players2 && r.gameState.value.deck == deck1[..|deck1| - extra];
    assert r.gameState.value.discardPile == s.discardPile;
    EffectsTotal(HandCards(players2), multiset(deck1[..|deck1| - extra]), HandCards(players1), multiset(deck1),
                 HandCards(g.players), multiset(s.deck), multiset(s.discardPile));
  }

  /** The multiset step of EffectsConserves. */
  lemma EffectsTotal(h2: multiset<Card>, d2: multiset<Card>, h1: multiset<Card>, d1: multiset<Card>,
                     h: multiset<Card>, d: multiset<Card>, pile: multiset<Card>)
    requires h2 + d2 == h1 + d1 && h1 + d1 == h + d
    ensures h2 + (d2 + pile) == h + (d + pile)
  {
    forall x ensures (h2 + (d2 + pile))[x] == (h + (d + pile))[x] {
      assert (h2 + d2)[x] == (h1 + d1)[x] == (h + d)[x];
    }
  }

  /** What the card itself does: it leaves the hand and tops the discard pile, and sets colour and value. */
  lemma PlacedMoves(g: Game, card: Card, chosenColor: Option<string>)
    requires Consistent(g) && g.started && card in Current(g).hand
    ensures var r := Placed(g, card, chosenColor);
            Consistent(r) && r.started && SameRoster(g.players, r.players)
            && r.gameState.value.discardPile == g.gameState.value.discardPile + [card]
            && r.gameState.value.currentColor == (if IsWild(card) then chosenColor else Some(card.color))
            && r.gameState.value.currentValue == card.value
  {
    var s := g.gameState.value;
    var p := Current(g);
    var hand := Remove(p.hand, card);
    var s1 := s.(discardPile := s.discardPile + [card], currentColor := ColorAfter(card, chosenColor), currentValue := card.value);
    if hand != [] {
      EffectsKeeps(g.(players := g.players[s.currentPlayerIndex := p.(hand := hand)], gameState := Some(s1)), card);
    }
  }

  lemma PlacedConserves(g: Game, card: Card, chosenColor: Option<string>)
    requires Consistent(g) && g.started && card in Current(g).hand
    ensures AllCards(Placed(g, card, chosenColor)) == AllCards(g)
  {
    var s := g.gameState.value;
    var i := s.currentPlayerIndex;
    var p := Current(g);
    var q := p.(hand := Remove(p.hand, card));
    var s1 := s.(discardPile := s.discardPile + [card], currentColor := ColorAfter(card, chosenColor), currentValue := card.value);
    var g1 := g.(players := g.players[i := q], gameState := Some(s1));
    HandCardsUpdate(g.players, i, q);
    PlaceShift(HandCards(g1.players), HandCards(g.players), multiset(p.hand), card,
               multiset(s.deck), multiset(s.discardPile));
    assert AllCards(g1) == AllCards(g) by {
      assert multiset(s1.discardPile) == multiset(s.discardPile) + multiset{card};
    }
    if q.hand != [] {
      EffectsConserves(g1, card);
    }
  }

  /** The multiset step of PlacedConserves: the card moves from a hand to the discard pile. */
  lemma PlaceShift(after: multiset<Card>, before: multiset<Card>, hand: multiset<Card>, card: Card,
                   deck: multiset<Card>, pile: multiset<Card>)
    requires card in hand && after + hand == before + (hand - multiset{card})
    ensures after + (deck + (pile + multiset{card})) == before + (deck + pile)
  {
    forall x ensures (after + (deck + (pile + multiset{card})))[x] == (before + (deck + pile))[x] {
      assert (after + hand)[x] == (before + (hand - multiset{card}))[x];
    }
  }

  // ---------------------------------------------------------------------------
  // play_card
  // ---------------------------------------------------------------------------

  /** play_card does nothing exactly when the sender is not the current player or holds no card with that id. */
  lemma PlayRefused(g: Game, pid: string, cid: string, chosenColor: Option<string>)
    requires Consistent(g) && g.started
    ensures Play(g, pid, cid, chosenColor) == g
            <==> Current(g).id != pid || forall k :: 0 <= k < |Current(g).hand| ==> Current(g).hand[k].id != cid
  {
    var p := Current(g);
    if p.id == pid && FindCard(p.hand, cid).Some? {
      PlacedMoves(g, p.hand[FindCard(p.hand, cid).value], chosenColor);
    }
  }

  /**
   * A successful play: the first card with id `cid` leaves the current hand and becomes
   * the top of the discard pile; the active colour is the chosen one exactly for a wild
   * card, otherwise the card's own; the active value is the card's.
   */
  lemma PlayMovesCard(g: Game, pid: string, cid: string, chosenColor: Option<string>)
    requires Consistent(g) && g.started && Current(g).id == pid && FindCard(Current(g).hand, cid).Some?
    ensures var k := FindCard(Current(g).hand, cid).value;
            var card := Current(g).hand[k];
            var r := Play(g, pid, cid, chosenColor);
            card.id == cid && (forall j :: 0 <= j < k ==> Current(g).hand[j].id != cid)
            && Consistent(r) && r.started && SameRoster(g.players, r.players)
            && r.gameState.value.discardPile == g.gameState.value.discardPile + [card]
            && r.gameState.value.currentColor == (if IsWild(card) then chosenColor else Some(card.color))
            && r.gameState.value.currentValue == card.value
            && |r.players[g.gameState.value.currentPlayerIndex].hand| >= |Current(g).hand| - 1
            && r.players[g.gameState.value.currentPlayerIndex].hand[..|Current(g).hand| - 1] == Remove(Current(g).hand, card)
  {
    var p := Current(g);
    var card := p.hand[FindCard(p.hand, cid).value];
    var i := g.gameState.value.currentPlayerIndex;
    var r := Play(g, pid, cid, chosenColor);
    PlacedMoves(g, card, chosenColor);
    if |p.hand| == 1 {
      PlayWins(g, pid, cid, chosenColor);
    } else {
      PlayHands(g, pid, cid, chosenColor);
      var hand := Remove(p.hand, card);
      var h := r.players[i].hand;
      assert h[..|hand|] == hand;
    }
  }

  /** Playing the last card wins: the winner is recorded and the turn, direction and deck stay as they were. */
  lemma PlayWins(g: Game, pid: string, cid: string, chosenColor: Option<string>)
    requires Consistent(g) && g.started && Current(g).id == pid && FindCard(Current(g).hand, cid).Some?
    requires |Current(g).hand| == 1
    ensures var s := g.gameState.value;
            var r := Play(g, pid, cid, chosenColor);
            var s' := r.gameState.value;
            r.players == g.players[s.currentPlayerIndex := Current(g).(hand := [])]
            && s'.winner == Some(Current(g).name)
            && s'.deck == s.deck && s'.currentPlayerIndex == s.currentPlayerIndex
            && s'.direction == s.direction && s'.hasDrawn == s.hasDrawn
  {
    var card := Current(g).hand[FindCard(Current(g).hand, cid).value];
    assert |Remove(Current(g).hand, card)| == 0;
  }

  /**
   * The turn after a play that does not win: reverse flips the direction, skip passes
   * over the next player, every other card (draw2 included) hands the turn to the
   * next player in the new direction; the winner stays and hasDrawn is cleared.
   */
  lemma PlayTurn(g: Game, pid: string, cid: string, chosenColor: Option<string>)
    requires Consistent(g) && g.started && Current(g).id == pid && FindCard(Current(g).hand, cid).Some?
    requires |Current(g).hand| >= 2
    ensures var s := g.gameState.value;
            var i := s.currentPlayerIndex;
            var n := |g.players|;
            var card := Current(g).hand[FindCard(Current(g).hand, cid).value];
            var s' := Play(g, pid, cid, chosenColor).gameState.value;
            s'.winner == s.winner && !s'.hasDrawn
            && s'.direction == (if card.value == "reverse" then -s.direction else s.direction)
            && s'.currentPlayerIndex
                 == if card.value == "skip" then NextPlayerIndex(NextPlayerIndex(i, s.direction, n), s.direction, n)
                    else NextPlayerIndex(i, s'.direction, n)
  {
    var card := Current(g).hand[FindCard(Current(g).hand, cid).value];
    assert |Remove(Current(g).hand, card)| != 0;
  }

  /**
   * The hands and the deck at the end of a turn that did not win, from the players `ps`
   * and the deck `deck` the turn started with, the current index `i`, the direction, and
   * the current player's record `p` once the card has left it. The player adds the
   * penalty cards popped off the deck: min(2, |deck|) of them when one card is left and
   * UNO was not called; the flag is cleared. A draw2 then pops up to two more cards for
   * the next player (the same player when playing alone). Every other player is as before.
   */
  ghost predicate AfterEffects(ps: seq<Player>, deck: seq<Card>, i: nat, direction: int, p: Player, card: Card,
                               qs: seq<Player>, deck': seq<Card>)
    requires i < |ps|
  {
    var n := |ps|;
    var pen := if |p.hand| == 1 && !p.calledUno then Min(2, |deck|) else 0;
    var deck1 := deck[..|deck| - pen];
    var v := NextPlayerIndex(i, direction, n);
    var extra := if card.value == "draw2" then Min(2, |deck1|) else 0;
    |qs| == n
    && deck' == deck1[..|deck1| - extra]
    && qs[i] == p.(hand := p.hand + Top(deck, pen) + (if v == i then Top(deck1, extra) else []), calledUno := false)
    && (v != i ==> qs[v] == ps[v].(hand := ps[v].hand + Top(deck1, extra)))
    && forall k :: 0 <= k < n && k != i && k != v ==> qs[k] == ps[k]
  }

  /** AfterEffects reads `ps` only away from the current index. */
  lemma AfterEffectsFrame(ps: seq<Player>, ps': seq<Player>, deck: seq<Card>, i: nat, direction: int, p: Player,
                          card: Card, qs: seq<Player>, deck': seq<Card>)
    requires i < |ps| == |ps'| && forall k :: 0 <= k < |ps| && k != i ==> ps[k] == ps'[k]
    requires AfterEffects(ps, deck, i, direction, p, card, qs, deck')
    ensures AfterEffects(ps', deck, i, direction, p, card, qs, deck')
  {
  }

  /** A play that does not win ends with the hands and deck of AfterEffects. */
  lemma PlayHands(g: Game, pid: string, cid: string, chosenColor: Option<string>)
    requires Consistent(g) && g.started && Current(g).id == pid && FindCard(Current(g).hand, cid).Some?
    requires |Current(g).hand| >= 2
    ensures var s := g.gameState.value;
            var p := Current(g);
            var card := p.hand[FindCard(p.hand, cid).value];
            var r := Play(g, pid, cid, chosenColor);
            AfterEffects(g.players, s.deck, s.currentPlayerIndex, s.direction, p.(hand := Remove(p.hand, card)), card,
                         r.players, r.gameState.value.deck)
  {
    var p := Current(g);
    PlacedHands(g, p.hand[FindCard(p.hand, cid).value], chosenColor);
  }

  lemma PlacedHands(g: Game, card: Card, chosenColor: Option<string>)
    requires Consistent(g) && g.started && card in Current(g).hand && |Current(g).hand| >= 2
    ensures var s := g.gameState.value;
            var p := Current(g);
            var r := Placed(g, card, chosenColor);
            AfterEffects(g.players, s.deck, s.currentPlayerIndex, s.direction, p.(hand := Remove(p.hand, card)), card,
                         r.players, r.gameState.value.deck)
  {
    var s := g.gameState.value;
    var i := s.currentPlayerIndex;
    var p := Current(g);
    var q := p.(hand := Remove(p.hand, card));
    var s1 := s.(discardPile := s.discardPile + [card], currentColor := ColorAfter(card, chosenColor), currentValue := card.value);
    var g1 := g.(players := g.players[i := q], gameState := Some(s1));
    assert q.hand != [];
    EffectsHands(g1, card);
    AfterEffectsFrame(g1.players, g.players, s.deck, i, s.direction, q, card,
                      Effects(g1, card).players, Effects(g1, card).gameState.value.deck);
  }

  /** Effects ends with the hands and deck of AfterEffects. */
  lemma EffectsHands(g: Game, card: Card)
    requires Consistent(g) && g.started
    ensures var s := g.gameState.value;
            var r := Effects(g, card);
            AfterEffects(g.players, s.deck, s.currentPlayerIndex, s.direction, g.players[s.currentPlayerIndex], card,
                         r.players, r.gameState.value.deck)
  {
    if card.value == "draw2" {
      EffectsHandsDraw2(g, card);
    } else {
      EffectsHandsPlain(g, card);
    }
  }

  lemma EffectsHandsDraw2(g: Game, card: Card)
    requires Consistent(g) && g.started && card.value == "draw2"
    ensures var s := g.gameState.value;
            var r := Effects(g, card);
            AfterEffects(g.players, s.deck, s.currentPlayerIndex, s.direction, g.players[s.currentPlayerIndex], card,
                         r.players, r.gameState.value.deck)
  {
  }

  lemma EffectsHandsPlain(g: Game, card: Card)
    requires Consistent(g) && g.started && card.value != "draw2"
    ensures var s := g.gameState.value;
            var r := Effects(g, card);
            AfterEffects(g.players, s.deck, s.currentPlayerIndex, s.direction, g.players[s.currentPlayerIndex], card,
                         r.players, r.gameState.value.deck)
  {
    var s := g.gameState.value;
    var p := g.players[s.currentPlayerIndex];
    var pen := Penalty(p, s.deck);
    var deck1 := s.deck[..|s.deck| - pen];
    assert Top(deck1, 0) == [];
    assert p.hand + Top(s.deck, pen) + [] == p.hand + Top(s.deck, pen);
    assert deck1[..|deck1| - 0] == deck1;
  }

  /** A player who gets down to one card without calling UNO draws two penalty cards, if the deck has them. */
  lemma UnoPenalty(g: Game, pid: string, cid: string, chosenColor: Option<string>)
    requires Consistent(g) && g.started && Current(g).id == pid && FindCard(Current(g).hand, cid).Some?
    requires |Current(g).hand| == 2 && !Current(g).calledUno
    requires Current(g).hand[FindCard(Current(g).hand, cid).value].value != "draw2" || |g.players| >= 2
    ensures var s := g.gameState.value;
            var r := Play(g, pid, cid, chosenColor);
            |r.players[s.currentPlayerIndex].hand| == 1 + Min(2, |s.deck|)
            && !r.players[s.currentPlayerIndex].calledUno
  {
    PlayHands(g, pid, cid, chosenColor);
    var s := g.gameState.value;
    if |g.players| >= 2 {
      NextIndexMoves(s.currentPlayerIndex, s.direction, |g.players|);
    }
  }

  /** With two or more players the next index is another player. */
  lemma NextIndexMoves(index: nat, direction: int, n: nat)
    requires index < n && 2 <= n && (direction == 1 || direction == -1)
    ensures NextPlayerIndex(index, direction, n) != index
  {
    NextIndexStep(index, direction, n);
  }

  /** Calling UNO at two cards avoids the penalty: the next play leaves exactly one card. */
  lemma UnoAvoidsPenalty(g: Game, pid: string, cid: string, chosenColor: Option<string>)
    requires Consistent(g) && g.started && Current(g).id == pid && FindCard(Current(g).hand, cid).Some?
    requires |Current(g).hand| == 2
    requires Current(g).hand[FindCard(Current(g).hand, cid).value].value != "draw2" || |g.players| >= 2
    ensures var g' := CallUno(g, pid);
            var r := Play(g', pid, cid, chosenColor);
            Consistent(g') && g'.started && Current(g') == Current(g).(calledUno := true)
            && |r.players[g.gameState.value.currentPlayerIndex].hand| == 1
  {
    var g' := CallUno(g, pid);
    CallUnoFlags(g, pid);
    PlayHands(g', pid, cid, chosenColor);
    var s := g.gameState.value;
    if |g.players| >= 2 {
      NextIndexMoves(s.currentPlayerIndex, s.direction, |g.players|);
    }
  }

  /** No card is lost or created by a play: hands, deck and discard pile hold the same cards. */
  lemma PlayConserves(g: Game, pid: string, cid: string, chosenColor: Option<string>)
    requires Consistent(g) && g.started
    ensures AllCards(Play(g, pid, cid, chosenColor)) == AllCards(g)
  {
    var p := Current(g);
    if p.id == pid && FindCard(p.hand, cid).Some? {
      PlacedConserves(g, p.hand[FindCard(p.hand, cid).value], chosenColor);
    }
  }

  lemma PlayInvariant(g: Game, pid: string, cid: string, chosenColor: Option<string>)
    requires Invariant(g) && g.started
    ensures Invariant(Play(g, pid, cid, chosenColor))
  {
    PlayConserves(g, pid, cid, chosenColor);
    var p := Current(g);
    if p.id == pid && FindCard(p.hand, cid).Some? {
      PlacedMoves(g, p.hand[FindCard(p.hand, cid).value], chosenColor);
    }
  }
}
