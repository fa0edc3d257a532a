/**
 * Properties of the rules engine: turn arithmetic, the guards of each handler,
 * what a successful step does, and the reachable-state invariant (the 108 cards
 * stay in play, the indices stay in range).
 */
module RulesFacts {
  import opened Wrappers
  import opened Cards
  import opened DeckFacts
  import opened Rules

  // ---------------------------------------------------------------------------
  // Turn arithmetic
  // ---------------------------------------------------------------------------

  /** A step of the turn order, written out: forward with wrap to 0, backward with wrap to the last player. */
  lemma NextIndexStep(index: nat, direction: int, n: nat)
    requires index < n && (direction == 1 || direction == -1)
    ensures NextPlayerIndex(index, direction, n)
              == if direction == 1 then (if index + 1 == n then 0 else index + 1)
                 else (if index == 0 then n - 1 else index - 1)
  {
  }

  /** With two players the direction does not matter: reverse acts like a plain card. */
  lemma TwoPlayersReverse(index: nat, direction: int)
    requires index < 2 && (direction == 1 || direction == -1)
    ensures NextPlayerIndex(index, -direction, 2) == NextPlayerIndex(index, direction, 2) == 1 - index
  {
  }

  /** With three or more players reversing the direction changes who is next. */
  lemma ReverseMatters(index: nat, direction: int, n: nat)
    requires 3 <= n && index < n && (direction == 1 || direction == -1)
    ensures NextPlayerIndex(index, -direction, n) != NextPlayerIndex(index, direction, n)
  {
    NextIndexStep(index, direction, n);
    NextIndexStep(index, -direction, n);
  }

  // ---------------------------------------------------------------------------
  // Counting the cards in the hands
  // ---------------------------------------------------------------------------

  lemma {:induction false} HandCardsConcat(a: seq<Player>, b: seq<Player>)
    ensures HandCards(a + b) == HandCards(a) + HandCards(b)
  {
    if b == [] {
      assert a + b == a;
    } else {
      var b', x := b[..|b| - 1], b[|b| - 1];
      assert (a + b)[..|a + b| - 1] == a + b';
      assert (a + b)[|a + b| - 1] == x;
      calc {
        HandCards(a + b);
        HandCards(a + b') + multiset(x.hand);
        { HandCardsConcat(a, b'); }
        HandCards(a) + HandCards(b') + multiset(x.hand);
        HandCards(a) + HandCards(b);
      }
    }
  }

  lemma HandCardsSingle(p: Player)
    ensures HandCards([p]) == multiset(p.hand)
  {
    assert [p][..0] == [];
  }

  /** Replacing one player's record swaps that player's hand in the count. */
  lemma HandCardsUpdate(ps: seq<Player>, i: nat, p: Player)
    requires i < |ps|
    ensures HandCards(ps[i := p]) + multiset(ps[i].hand) == HandCards(ps) + multiset(p.hand)
  {
    var front, back := ps[..i], ps[i + 1..];
    assert ps == front + [ps[i]] + back;
    assert ps[i := p] == front + [p] + back;
    HandCardsConcat(front + [ps[i]], back);
    HandCardsConcat(front + [p], back);
    HandCardsConcat(front, [ps[i]]);
    HandCardsConcat(front, [p]);
    HandCardsSingle(p);
    HandCardsSingle(ps[i]);
  }

  lemma HandCardsPrefix(ps: seq<Player>, n: nat)
    requires 0 < n <= |ps|
    ensures HandCards(ps[..n]) == HandCards(ps[..n - 1]) + multiset(ps[n - 1].hand)
  {
    assert ps[..n] == ps[..n - 1] + [ps[n - 1]];
    HandCardsConcat(ps[..n - 1], [ps[n - 1]]);
    HandCardsSingle(ps[n - 1]);
  }

  lemma {:induction false} HandCardsSameHands(ps: seq<Player>, qs: seq<Player>)
    requires |ps| == |qs|
    requires forall k :: 0 <= k < |ps| ==> ps[k].hand == qs[k].hand
    ensures HandCards(ps) == HandCards(qs)
  {
    if ps != [] {
      HandCardsSameHands(ps[..|ps| - 1], qs[..|qs| - 1]);
    }
  }

  /** list.remove drops exactly the first occurrence: the elements before it and after it stay, in order. */
  lemma {:induction false} RemoveFirstOccurrence<T>(a: seq<T>, x: T, b: seq<T>)
    requires x !in a
    ensures Remove(a + [x] + b, x) == a + b
  {
    var s := a + [x] + b;
    if a == [] {
      assert s[0] == x && s[1..] == b;
    } else {
      assert s[0] == a[0] && s[1..] == a[1..] + [x] + b;
      assert a[0] in a;
      assert Remove(s, x) == [a[0]] + Remove(a[1..] + [x] + b, x);
      RemoveFirstOccurrence(a[1..], x, b);
      ConsAppend(a, b);
    }
  }

  lemma ConsAppend<T>(a: seq<T>, b: seq<T>)
    requires |a| > 0
    ensures [a[0]] + (a[1..] + b) == a + b
  {
    assert a == [a[0]] + a[1..];
  }

  /** Moving the top `c` cards of `deck` onto the end of player k's hand keeps the count of hands and deck. */
  lemma GiveTop(ps: seq<Player>, k: nat, q: Player, deck: seq<Card>, c: nat)
    requires k < |ps| && c <= |deck| && q.hand == ps[k].hand + Top(deck, c)
    ensures HandCards(ps[k := q]) + multiset(deck[..|deck| - c]) == HandCards(ps) + multiset(deck)
  {
    HandCardsUpdate(ps, k, q);
    TopSplit(deck, c);
    GiveShift(HandCards(ps[k := q]), HandCards(ps), multiset(ps[k].hand), multiset(Top(deck, c)),
              multiset(deck[..|deck| - c]), multiset(deck));
  }

  /** The multiset step of GiveTop: the old hand cancels, the popped cards move. */
  lemma GiveShift(after: multiset<Card>, before: multiset<Card>, hand: multiset<Card>, top: multiset<Card>,
                  rest: multiset<Card>, deck: multiset<Card>)
    requires after + hand == before + (hand + top) && top + rest == deck
    ensures after + rest == before + deck
  {
    forall x ensures (after + rest)[x] == (before + deck)[x] {
      assert (after + hand)[x] == (before + (hand + top))[x];
      assert (top + rest)[x] == deck[x];
    }
  }

  /** The players keep their ids, names and host flags, in the same order. */
  predicate SameRoster(ps: seq<Player>, qs: seq<Player>) {
    |ps| == |qs|
    && forall k :: 0 <= k < |ps| ==> ps[k].id == qs[k].id && ps[k].name == qs[k].name && ps[k].isHost == qs[k].isHost
  }

  // ---------------------------------------------------------------------------
  // Lobby
  // ---------------------------------------------------------------------------

  /** join_game is refused exactly on a started game; otherwise it appends one fresh non-host player. */
  lemma JoinEffect(g: Game, pid: string, name: string)
    ensures Join(g, pid, name).None? <==> g.started
    ensures Join(g, pid, name).Some? ==>
              var r := Join(g, pid, name).value;
              |r.players| == |g.players| + 1
              && r.players[..|g.players|] == g.players
              && r.players[|g.players|] == Player(pid, name, false, [], false)
              && r.started == g.started && r.gameState == g.gameState
  {
  }

  lemma JoinInvariant(g: Game, pid: string, name: string)
    requires Invariant(g) && Join(g, pid, name).Some?
    ensures Invariant(Join(g, pid, name).value)
  {
    HandCardsConcat(g.players, [Player(pid, name, false, [], false)]);
    HandCardsSingle(Player(pid, name, false, [], false));
  }

  // ---------------------------------------------------------------------------
  // Start
  // ---------------------------------------------------------------------------

  lemma StartNonHost(g: Game, pid: string, rand: nat -> nat)
    requires !IsHost(g.players, pid)
    ensures Start(g, pid, rand) == g
  {
  }

  lemma {:induction false} DealCards(ps: seq<Player>, d: seq<Card>, n: nat)
    requires 7 * |ps| <= |d| && n <= |ps|
    ensures HandCards(Deal(ps, d)[..n]) + multiset(d[..|d| - 7 * n]) == multiset(d)
  {
    if n == 0 {
      DealBase(ps, d);
    } else {
      DealCards(ps, d, n - 1);
      DealStep(ps, d, n);
      PopSeven(d, n);
      MultisetShift(HandCards(Deal(ps, d)[..n]), HandCards(Deal(ps, d)[..n - 1]),
                    multiset(Top(d[..|d| - 7 * (n - 1)], 7)),
                    multiset(d[..|d| - 7 * n]), multiset(d[..|d| - 7 * (n - 1)]), multiset(d));
    }
  }

  /** The seven cards popped for player n - 1 leave the cards below them. */
  lemma PopSeven(d: seq<Card>, n: nat)
    requires 1 <= n && 7 * n <= |d|
    ensures multiset(d[..|d| - 7 * (n - 1)]) == multiset(d[..|d| - 7 * n]) + multiset(Top(d[..|d| - 7 * (n - 1)], 7))
  {
    var x := d[..|d| - 7 * (n - 1)];
    assert x[..|x| - 7] == d[..|d| - 7 * n];
    TopSplit(x, 7);
  }

  lemma DealBase(ps: seq<Player>, d: seq<Card>)
    requires 7 * |ps| <= |d|
    ensures HandCards(Deal(ps, d)[..0]) + multiset(d[..|d| - 7 * 0]) == multiset(d)
  {
    assert d[..|d| - 7 * 0] == d;
    assert Deal(ps, d)[..0] == [];
  }

  lemma DealStep(ps: seq<Player>, d: seq<Card>, n: nat)
    requires 7 * |ps| <= |d| && 1 <= n <= |ps|
    ensures HandCards(Deal(ps, d)[..n]) == HandCards(Deal(ps, d)[..n - 1]) + multiset(Top(d[..|d| - 7 * (n - 1)], 7))
  {
    var dealt := Deal(ps, d);
    HandCardsPrefix(dealt, n);
    assert dealt[n - 1].hand == Top(d[..|d| - 7 * (n - 1)], 7);
  }

  /** The whole deal: the hands and the cards left below them are the dealt deck. */
  lemma DealAll(ps: seq<Player>, d: seq<Card>)
    requires 7 * |ps| <= |d|
    ensures HandCards(Deal(ps, d)) + multiset(d[..|d| - 7 * |ps|]) == multiset(d)
  {
    DealCards(ps, d, |ps|);
    assert Deal(ps, d)[..|ps|] == Deal(ps, d);
  }

  /** The rotation loop only reorders: the opening record holds the cards left after the deal. */
  lemma OpeningCards(rest: seq<Card>)
    requires HasNonWild(rest)
    ensures StateCards(Opening(rest)) == multiset(rest)
  {
    var j := SeedIndex(rest);
    assert rest == rest[..j] + [rest[j]] + rest[j + 1..];
    assert Opening(rest).deck == rest[j + 1..] + rest[..j];
    assert Opening(rest).discardPile == [rest[j]];
  }

  /** The cards of the opening record and the deal together are the dealt deck. */
  lemma StartWithCards(g: Game, deck: seq<Card>)
    requires Dealable(|g.players|, deck)
    ensures AllCards(StartWith(g, deck)) == multiset(deck)
  {
    DealAll(g.players, deck);
    OpeningCards(deck[..|deck| - 7 * |g.players|]);
  }

  lemma StartWithDeals(g: Game, deck: seq<Card>)
    requires Dealable(|g.players|, deck)
    ensures var r := StartWith(g, deck);
            r.started && r.gameState.Some? && |r.players| == |g.players|
            && (forall k :: 0 <= k < |r.players| ==>
                  |r.players[k].hand| == 7 && !r.players[k].calledUno
                  && r.players[k].id == g.players[k].id && r.players[k].name == g.players[k].name
                  && r.players[k].isHost == g.players[k].isHost)
            && var s := r.gameState.value;
            |s.discardPile| == 1 && !IsWild(s.discardPile[0])
            && s.currentColor == Some(s.discardPile[0].color) && s.currentValue == s.discardPile[0].value
            && s.currentPlayerIndex == 0 && s.direction == 1 && !s.hasDrawn && s.winner == None
            && |s.deck| == |deck| - 7 * |g.players| - 1
  {
  }

  /**
   * After the host starts: 7 cards and a cleared UNO flag for everyone, a single
   * non-wild card on the discard pile that sets the active colour and value,
   * the first player to move clockwise, no winner, and 108 - 7n - 1 cards to draw.
   */
  lemma StartDeals(g: Game, pid: string, rand: nat -> nat)
    requires |g.players| <= 14 && IsHost(g.players, pid)
    ensures var r := Start(g, pid, rand);
            r.started && r.gameState.Some? && |r.players| == |g.players|
            && (forall k :: 0 <= k < |r.players| ==>
                  |r.players[k].hand| == 7 && !r.players[k].calledUno
                  && r.players[k].id == g.players[k].id && r.players[k].name == g.players[k].name
                  && r.players[k].isHost == g.players[k].isHost)
            && var s := r.gameState.value;
            |s.discardPile| == 1 && !IsWild(s.discardPile[0])
            && s.currentColor == Some(s.discardPile[0].color) && s.currentValue == s.discardPile[0].value
            && s.currentPlayerIndex == 0 && s.direction == 1 && !s.hasDrawn && s.winner == None
            && |s.deck| == 108 - 7 * |g.players| - 1
  {
    var deck := Shuffle(OrderedDeck(), rand);
    ShuffledDealable(|g.players|, rand);
    DeckSize();
    StartWithDeals(g, deck);
  }

  /** A start puts exactly the 108 cards of a deck into play. */
  lemma StartInvariant(g: Game, pid: string, rand: nat -> nat)
    requires |g.players| <= 14 && IsHost(g.players, pid)
    ensures Invariant(Start(g, pid, rand))
  {
    var deck := Shuffle(OrderedDeck(), rand);
    ShuffledDealable(|g.players|, rand);
    StartWithCards(g, deck);
    StartWithDeals(g, deck);
  }

  // ---------------------------------------------------------------------------
  // call_uno
  // ---------------------------------------------------------------------------

  /**
   * call_uno sets the flag of every player with the sender's id whose hand has exactly
   * two cards, and changes nothing else: not the hands, the roster or the game record.
   */
  lemma CallUnoFlags(g: Game, pid: string)
    requires g.started
    ensures var r := CallUno(g, pid);
            SameRoster(g.players, r.players) && r.started && r.gameState == g.gameState
            && (Consistent(g) ==> Consistent(r) && Current(r) == Flagged(Current(g), pid))
            && forall k :: 0 <= k < |g.players| ==>
                 r.players[k].hand == g.players[k].hand
                 && (r.players[k].calledUno
                     <==> g.players[k].calledUno || (g.players[k].id == pid && |g.players[k].hand| == 2))
  {
  }

  lemma CallUnoConserves(g: Game, pid: string)
    requires g.started
    ensures AllCards(CallUno(g, pid)) == AllCards(g)
  {
    HandCardsSameHands(g.players, CallUno(g, pid).players);
  }

  lemma CallUnoInvariant(g: Game, pid: string)
    requires Invariant(g) && g.started
    ensures Invariant(CallUno(g, pid))
  {
    CallUnoConserves(g, pid);
  }
}
