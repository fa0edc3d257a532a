/**
 * What create_deck promises about the deck it builds: 108 cards, one "0" and
 * two of each other value per colour, four "wild" and four "wild4", and no two
 * cards with the same id. Also the counting fact that lets the start of a match
 * always find a non-wild seed card.
 */
module DeckFacts {
  import opened Cards

  // ---------------------------------------------------------------------------
  // Facts about the two constant lists
  // ---------------------------------------------------------------------------

  predicate NoDup(xs: seq<string>) {
    forall i, j :: 0 <= i < j < |xs| ==> xs[i] != xs[j]
  }

  predicate NoDash(s: string) {
    '-' !in s
  }

  lemma ConstantsFacts()
    ensures NoDup(COLORS) && NoDup(VALUES)
    ensures forall c :: c in COLORS ==> NoDash(c) && c != WILD && c != WILD4
    ensures forall v :: v in VALUES ==> NoDash(v)
    ensures NoDash(WILD) && NoDash(WILD4) && WILD != WILD4
    ensures "0" in VALUES && |VALUES| == 13 && |COLORS| == 4
  {
    ValuesFacts();
    ColorsFacts();
    assert WILD[0] != WILD4[0] || |WILD| != |WILD4|;
  }

  lemma ValuesFacts()
    ensures NoDup(VALUES) && "0" in VALUES && |VALUES| == 13
    ensures forall v :: v in VALUES ==> NoDash(v)
  {
    assert forall i, j :: 0 <= i < j < |VALUES| ==> |VALUES[i]| != |VALUES[j]| || VALUES[i][0] != VALUES[j][0];
    assert VALUES[0] == "0";
  }

  lemma ColorsFacts()
    ensures NoDup(COLORS) && |COLORS| == 4
    ensures forall c :: c in COLORS ==> NoDash(c) && c != WILD && c != WILD4
  {
    assert forall i, j :: 0 <= i < j < |COLORS| ==> COLORS[i][0] != COLORS[j][0];
    assert forall c :: c in COLORS ==> c[0] != WILD[0];
  }

  // ---------------------------------------------------------------------------
  // Size: 108 cards
  // ---------------------------------------------------------------------------

  lemma {:induction false} ColorBlockSize(color: string, vs: seq<string>)
    requires NoDup(vs)
    ensures |ColorBlock(color, vs)| == 2 * |vs| - (if "0" in vs then 1 else 0)
  {
    if vs != [] {
      var init := vs[..|vs| - 1];
      assert NoDup(init);
      ColorBlockSize(color, init);
      assert vs == init + [vs[|vs| - 1]];
      assert "0" in vs <==> "0" in init || vs[|vs| - 1] == "0";
    }
  }

  lemma {:induction false} ColoredCardsSize(cs: seq<string>)
    ensures |ColoredCards(cs)| == 25 * |cs|
  {
    if cs != [] {
      ColoredCardsSize(cs[..|cs| - 1]);
      ConstantsFacts();
      ColorBlockSize(cs[|cs| - 1], VALUES);
    }
  }

  lemma {:induction false} WildCardsSize(n: nat)
    requires n <= 10
    ensures |WildCards(n)| == 2 * n
  {
    if n > 0 {
      WildCardsSize(n - 1);
    }
  }

  /** The deck holds 100 coloured cards and 8 wild ones. */
  lemma DeckSize()
    ensures |ColoredCards(COLORS)| == 100 && |WildCards(WILD_COPIES)| == 8
    ensures |OrderedDeck()| == 108
  {
    ColoredCardsSize(COLORS);
    WildCardsSize(WILD_COPIES);
  }

  // ---------------------------------------------------------------------------
  // Contents by colour and value
  // ---------------------------------------------------------------------------

  /** The number of cards of `s` with this colour and value. */
  function FaceCount(s: seq<Card>, color: string, value: string): nat {
    if s == [] then 0
    else FaceCount(s[..|s| - 1], color, value) + (if s[|s| - 1].color == color && s[|s| - 1].value == value then 1 else 0)
  }

  lemma {:induction false} FaceCountAppend(a: seq<Card>, b: seq<Card>, color: string, value: string)
    ensures FaceCount(a + b, color, value) == FaceCount(a, color, value) + FaceCount(b, color, value)
  {
    if b == [] {
      assert a + b == a;
    } else {
      var init := b[..|b| - 1];
      FaceCountAppend(a, init, color, value);
      assert (a + b)[..|a + b| - 1] == a + init;
    }
  }

  lemma FaceCountSingle(x: Card, color: string, value: string)
    ensures FaceCount([x], color, value) == if x.color == color && x.value == value then 1 else 0
  {
    assert [x][..0] == [];
  }

  lemma ValueCardsCount(c: string, w: string, color: string, value: string)
    ensures FaceCount(ValueCards(c, w), color, value) == if color == c && value == w then Copies(w) else 0
  {
    var one := Card(c, w, c + "-" + w + "-1");
    FaceCountSingle(one, color, value);
    if w != "0" {
      var two := Card(c, w, c + "-" + w + "-2");
      FaceCountSingle(two, color, value);
      FaceCountAppend([one], [two], color, value);
    } else {
      assert ValueCards(c, w) == [one];
    }
  }

  lemma {:induction false} ColorBlockCount(c: string, vs: seq<string>, color: string, value: string)
    requires NoDup(vs)
    ensures FaceCount(ColorBlock(c, vs), color, value) == if color == c && value in vs then Copies(value) else 0
  {
    if vs != [] {
      var init, w := vs[..|vs| - 1], vs[|vs| - 1];
      assert NoDup(init);
      assert w !in init;
      ColorBlockCount(c, init, color, value);
      FaceCountAppend(ColorBlock(c, init), ValueCards(c, w), color, value);
      ValueCardsCount(c, w, color, value);
      assert vs == init + [w];
      assert value in vs <==> value in init || value == w;
    }
  }

  lemma {:induction false} ColoredCardsCount(cs: seq<string>, color: string, value: string)
    requires NoDup(cs)
    ensures FaceCount(ColoredCards(cs), color, value) == if color in cs && value in VALUES then Copies(value) else 0
  {
    if cs != [] {
      var init, c := cs[..|cs| - 1], cs[|cs| - 1];
      assert NoDup(init);
      assert c !in init;
      ColoredCardsCount(init, color, value);
      ConstantsFacts();
      FaceCountAppend(ColoredCards(init), ColorBlock(c, VALUES), color, value);
      ColorBlockCount(c, VALUES, color, value);
      assert cs == init + [c];
      assert color in cs <==> color in init || color == c;
    }
  }

  lemma {:induction false} WildCardsCount(n: nat, color: string, value: string)
    requires n <= 10
    ensures FaceCount(WildCards(n), color, value) == if color == WILD && (value == WILD || value == WILD4) then n else 0
  {
    if n > 0 {
      WildCardsCount(n - 1, color, value);
      var a, b := Card(WILD, WILD, WILD + "-" + Digit(n - 1)), Card(WILD, WILD4, WILD4 + "-" + Digit(n - 1));
      FaceCountAppend(WildCards(n - 1), [a, b], color, value);
      FaceCountSingle(a, color, value);
      FaceCountSingle(b, color, value);
      FaceCountAppend([a], [b], color, value);
      assert [a] + [b] == [a, b];
      ConstantsFacts();
    }
  }

  /**
   * Per colour one "0" and two of every other value, four "wild" and four
   * "wild4" cards, and nothing else.
   */
  lemma DeckFaces(color: string, value: string)
    ensures FaceCount(OrderedDeck(), color, value) ==
      if color in COLORS && value in VALUES then Copies(value)
      else if color == WILD && (value == WILD || value == WILD4) then WILD_COPIES
      else 0
  {
    ConstantsFacts();
    FaceCountAppend(ColoredCards(COLORS), WildCards(WILD_COPIES), color, value);
    ColoredCardsCount(COLORS, color, value);
    WildCardsCount(WILD_COPIES, color, value);
  }

  lemma {:induction false} FaceCountWithoutAt(s: seq<Card>, k: nat, color: string, value: string)
    requires k < |s|
    ensures FaceCount(s, color, value)
            == FaceCount(s[..k] + s[k + 1..], color, value) + (if s[k].color == color && s[k].value == value then 1 else 0)
  {
    assert s == s[..k] + [s[k]] + s[k + 1..];
    FaceCountAppend(s[..k] + [s[k]], s[k + 1..], color, value);
    FaceCountAppend(s[..k], [s[k]], color, value);
    FaceCountAppend(s[..k], s[k + 1..], color, value);
    FaceCountSingle(s[k], color, value);
  }

  /** The face counts do not depend on the order: the shuffle keeps them. */
  lemma {:induction false} FaceCountPerm(a: seq<Card>, b: seq<Card>, color: string, value: string)
    requires multiset(a) == multiset(b)
    ensures FaceCount(a, color, value) == FaceCount(b, color, value)
    decreases |a|
  {
    if a == [] {
      assert |b| == |multiset(b)| == 0;
    } else {
      var x := a[|a| - 1];
      SplitLast(a);
      assert x in multiset(b);
      var k :| 0 <= k < |b| && b[k] == x;
      MultisetWithoutAt(b, k);
      FaceCountWithoutAt(b, k, color, value);
      assert multiset(a[..|a| - 1]) == multiset(a) - multiset{x};
      assert multiset(b[..k] + b[k + 1..]) == multiset(b) - multiset{x};
      FaceCountPerm(a[..|a| - 1], b[..k] + b[k + 1..], color, value);
    }
  }

  // ---------------------------------------------------------------------------
  // Distinct ids
  // ---------------------------------------------------------------------------

  predicate DistinctIds(s: seq<Card>) {
    forall i, j :: 0 <= i < j < |s| ==> s[i].id != s[j].id
  }

  /** Two ids split at their first '-' agree on both halves. */
  lemma SplitAtDash(a: string, x: string, b: string, y: string)
    requires NoDash(a) && NoDash(b)
    ensures a + "-" + x == b + "-" + y ==> a == b && x == y
  {
    var l, r := a + "-" + x, b + "-" + y;
    if |a| < |b| {
      assert l[|a|] != r[|a|];
    } else if |b| < |a| {
      assert l[|b|] != r[|b|];
    } else {
      assert l[..|a|] == a && r[..|b|] == b;
      assert l[|a| + 1..] == x && r[|b| + 1..] == y;
    }
  }

  lemma DigitInjective(i: nat, j: nat)
    requires i < 10 && j < 10
    ensures Digit(i) == Digit(j) ==> i == j
  {
    assert Digit(i)[0] as int == '0' as int + i;
    assert Digit(j)[0] as int == '0' as int + j;
  }

  /** An id of a coloured card: colour, value and copy number joined by '-'. */
  predicate ColoredShape(x: Card) {
    x.id == x.color + "-" + (x.value + "-" + "1") || x.id == x.color + "-" + (x.value + "-" + "2")
  }

  /** An id the wild loop builds in one of its first `n` iterations: kind and iteration joined by '-'. */
  predicate WildShape(x: Card, n: nat)
    requires n <= 10
  {
    x.color == WILD && (x.value == WILD || x.value == WILD4)
    && exists i :: 0 <= i < n && x.id == x.value + "-" + Digit(i)
  }

  lemma ColoredIdsDetermineFace(x: Card, y: Card)
    requires ColoredShape(x) && ColoredShape(y)
    requires NoDash(x.color) && NoDash(y.color) && NoDash(x.value) && NoDash(y.value)
    ensures x.id == y.id ==> x.color == y.color && x.value == y.value
  {
    var kx := if x.id == x.color + "-" + (x.value + "-" + "1") then "1" else "2";
    var ky := if y.id == y.color + "-" + (y.value + "-" + "1") then "1" else "2";
    SplitAtDash(x.color, x.value + "-" + kx, y.color, y.value + "-" + ky);
    SplitAtDash(x.value, kx, y.value, ky);
  }

  lemma ValueCardsShape(c: string, w: string)
    ensures forall x :: x in ValueCards(c, w) ==> x.color == c && x.value == w && ColoredShape(x)
    ensures DistinctIds(ValueCards(c, w))
  {
    var one, two := c + "-" + w + "-1", c + "-" + w + "-2";
    assert one == c + "-" + (w + "-" + "1");
    assert two == c + "-" + (w + "-" + "2");
    assert one[|one| - 1] != two[|two| - 1];
  }

  lemma DistinctAppend(a: seq<Card>, b: seq<Card>)
    requires DistinctIds(a) && DistinctIds(b)
    requires forall x, y :: x in a && y in b ==> x.id != y.id
    ensures DistinctIds(a + b)
  {
    forall i, j | 0 <= i < j < |a + b| ensures (a + b)[i].id != (a + b)[j].id {
      if j >= |a| && i < |a| {
        assert (a + b)[i] in a && (a + b)[j] in b;
      } else if i >= |a| {
        assert (a + b)[i] == b[i - |a|] && (a + b)[j] == b[j - |a|];
      }
    }
  }

  lemma {:induction false} ColorBlockIds(c: string, vs: seq<string>)
    requires NoDash(c) && NoDup(vs) && forall v :: v in vs ==> NoDash(v)
    ensures forall x :: x in ColorBlock(c, vs) ==> x.color == c && x.value in vs && ColoredShape(x)
    ensures DistinctIds(ColorBlock(c, vs))
  {
    if vs != [] {
      var init, w := vs[..|vs| - 1], vs[|vs| - 1];
      assert NoDup(init);
      assert w !in init;
      assert vs == init + [w];
      ColorBlockIds(c, init);
      ValueCardsShape(c, w);
      forall x, y | x in ColorBlock(c, init) && y in ValueCards(c, w) ensures x.id != y.id {
        ColoredIdsDetermineFace(x, y);
      }
      DistinctAppend(ColorBlock(c, init), ValueCards(c, w));
    }
  }

  lemma {:induction false} ColoredCardsIds(cs: seq<string>)
    requires NoDup(cs) && forall c :: c in cs ==> NoDash(c)
    ensures forall x :: x in ColoredCards(cs) ==> x.color in cs && x.value in VALUES && ColoredShape(x)
    ensures DistinctIds(ColoredCards(cs))
  {
    if cs != [] {
      var init, c := cs[..|cs| - 1], cs[|cs| - 1];
      assert NoDup(init);
      assert c !in init;
      assert cs == init + [c];
      ConstantsFacts();
      ColoredCardsIds(init);
      ColorBlockIds(c, VALUES);
      forall x, y | x in ColoredCards(init) && y in ColorBlock(c, VALUES) ensures x.id != y.id {
        ColoredIdsDetermineFace(x, y);
      }
      DistinctAppend(ColoredCards(init), ColorBlock(c, VALUES));
    }
  }

  lemma {:induction false} WildCardsIds(n: nat)
    requires n <= 10
    ensures forall x :: x in WildCards(n) ==> WildShape(x, n)
    ensures DistinctIds(WildCards(n))
  {
    ConstantsFacts();
    if n > 0 {
      WildCardsIds(n - 1);
      var d := Digit(n - 1);
      var a, b := Card(WILD, WILD, WILD + "-" + d), Card(WILD, WILD4, WILD4 + "-" + d);
      var pair := [a, b];
      SplitAtDash(WILD, d, WILD4, d);
      forall x, y | x in WildCards(n - 1) && y in pair ensures x.id != y.id {
        var i :| 0 <= i < n - 1 && x.id == x.value + "-" + Digit(i);
        SplitAtDash(x.value, Digit(i), y.value, d);
        DigitInjective(i, n - 1);
      }
      DistinctAppend(WildCards(n - 1), pair);
      forall x | x in WildCards(n) ensures WildShape(x, n) {
        if x in WildCards(n - 1) {
          var i :| 0 <= i < n - 1 && x.id == x.value + "-" + Digit(i);
        } else {
          assert x == a || x == b;
        }
      }
    }
  }

  /** create_deck gives every card its own id. */
  lemma DeckIdsDistinct()
    ensures DistinctIds(OrderedDeck())
  {
    ConstantsFacts();
    ColoredCardsIds(COLORS);
    WildCardsIds(WILD_COPIES);
    forall x, y | x in ColoredCards(COLORS) && y in WildCards(WILD_COPIES) ensures x.id != y.id {
      var i :| 0 <= i < WILD_COPIES && y.id == y.value + "-" + Digit(i);
      var k := if x.id == x.color + "-" + (x.value + "-" + "1") then "1" else "2";
      SplitAtDash(x.color, x.value + "-" + k, y.value, Digit(i));
    }
    DistinctAppend(ColoredCards(COLORS), WildCards(WILD_COPIES));
  }

  /** With distinct ids no card occurs twice. */
  lemma {:induction false} DistinctOnce(s: seq<Card>, x: Card)
    requires DistinctIds(s)
    ensures multiset(s)[x] <= 1
  {
    if s != [] {
      var t := s[..|s| - 1];
      assert DistinctIds(t) by {
        forall i, j | 0 <= i < j < |t| ensures t[i].id != t[j].id {
          assert t[i] == s[i] && t[j] == s[j];
        }
      }
      DistinctOnce(t, x);
      SplitLast(s);
      if s[|s| - 1] == x {
        assert x !in t by {
          forall i | 0 <= i < |t| ensures t[i] != x {
            assert s[i].id != s[|s| - 1].id;
          }
        }
      }
    }
  }

  /** Distinct ids do not depend on the order: the shuffle keeps them. */
  lemma DistinctPerm(a: seq<Card>, b: seq<Card>)
    requires multiset(a) == multiset(b) && DistinctIds(a)
    ensures DistinctIds(b)
  {
    forall i, j | 0 <= i < j < |b| ensures b[i].id != b[j].id {
      if b[i] == b[j] {
        assert b == b[..j] + [b[j]] + b[j + 1..];
        assert b[i] in b[..j];
        assert multiset(b)[b[j]] >= 2;
        DistinctOnce(a, b[j]);
      } else {
        assert b[i] in multiset(a) && b[j] in multiset(a);
        var p :| 0 <= p < |a| && a[p] == b[i];
        var q :| 0 <= q < |a| && a[q] == b[j];
        assert p != q;
      }
    }
  }

  /**
   * create_deck's result: 108 cards, per colour one "0" and two of every other
   * value, four "wild" and four "wild4", and every id its own.
   */
  lemma CreatedDeck(rand: nat -> nat, color: string, value: string)
    ensures var d := Shuffle(OrderedDeck(), rand);
            |d| == 108 && DistinctIds(d)
            && FaceCount(d, color, value) ==
                 if color in COLORS && value in VALUES then Copies(value)
                 else if color == WILD && (value == WILD || value == WILD4) then WILD_COPIES
                 else 0
  {
    var d := Shuffle(OrderedDeck(), rand);
    FullDeckFacts(d);
    DeckIdsDistinct();
    DistinctPerm(OrderedDeck(), d);
    DeckFaces(color, value);
    FaceCountPerm(OrderedDeck(), d, color, value);
  }

  // ---------------------------------------------------------------------------
  // Wild cards: eight in any order of the deck
  // ---------------------------------------------------------------------------

  function WildCount(s: seq<Card>): nat {
    if s == [] then 0 else WildCount(s[..|s| - 1]) + (if IsWild(s[|s| - 1]) then 1 else 0)
  }

  lemma {:induction false} WildCountAppend(a: seq<Card>, b: seq<Card>)
    ensures WildCount(a + b) == WildCount(a) + WildCount(b)
  {
    if b == [] {
      assert a + b == a;
    } else {
      WildCountAppend(a, b[..|b| - 1]);
      assert (a + b)[..|a + b| - 1] == a + b[..|b| - 1];
    }
  }

  lemma {:induction false} WildCountMiddle(a: seq<Card>, x: Card, b: seq<Card>)
    ensures WildCount(a + [x] + b) == WildCount(a + b) + (if IsWild(x) then 1 else 0)
  {
    WildCountAppend(a + [x], b);
    WildCountAppend(a, [x]);
    WildCountAppend(a, b);
    assert [x][..0] == [];
  }

  /** Taking out the card at position k: the steps of the permutation argument below. */
  lemma MultisetWithoutAt(s: seq<Card>, k: nat)
    requires k < |s|
    ensures multiset(s) == multiset(s[..k] + s[k + 1..]) + multiset{s[k]}
  {
    assert s == s[..k] + [s[k]] + s[k + 1..];
  }

  lemma {:induction false} WildCountWithoutAt(s: seq<Card>, k: nat)
    requires k < |s|
    ensures WildCount(s) == WildCount(s[..k] + s[k + 1..]) + (if IsWild(s[k]) then 1 else 0)
  {
    assert s == s[..k] + [s[k]] + s[k + 1..];
    WildCountMiddle(s[..k], s[k], s[k + 1..]);
  }

  lemma SplitLast(s: seq<Card>)
    requires |s| > 0
    ensures multiset(s) == multiset(s[..|s| - 1]) + multiset{s[|s| - 1]}
  {
    assert s == s[..|s| - 1] + [s[|s| - 1]];
  }

  /** The number of wild cards does not depend on the order. */
  lemma {:induction false} WildCountPerm(a: seq<Card>, b: seq<Card>)
    requires multiset(a) == multiset(b)
    ensures WildCount(a) == WildCount(b)
    decreases |a|
  {
    if a == [] {
      assert |b| == |multiset(b)| == 0;
    } else {
      var x := a[|a| - 1];
      SplitLast(a);
      assert x in multiset(b);
      var k :| 0 <= k < |b| && b[k] == x;
      MultisetWithoutAt(b, k);
      WildCountWithoutAt(b, k);
      assert multiset(a[..|a| - 1]) == multiset(a) - multiset{x};
      assert multiset(b[..k] + b[k + 1..]) == multiset(b) - multiset{x};
      WildCountPerm(a[..|a| - 1], b[..k] + b[k + 1..]);
    }
  }

  lemma {:induction false} ColorBlockNotWild(c: string, vs: seq<string>)
    requires c != WILD
    ensures WildCount(ColorBlock(c, vs)) == 0
  {
    if vs != [] {
      var v := vs[|vs| - 1];
      ColorBlockNotWild(c, vs[..|vs| - 1]);
      WildCountAppend(ColorBlock(c, vs[..|vs| - 1]), ValueCards(c, v));
      assert WildCount(ValueCards(c, v)) == 0 by {
        WildCountAppend([Card(c, v, c + "-" + v + "-1")], if v != "0" then [Card(c, v, c + "-" + v + "-2")] else []);
        assert [Card(c, v, c + "-" + v + "-1")][..0] == [];
        assert [Card(c, v, c + "-" + v + "-2")][..0] == [];
      }
    }
  }

  lemma {:induction false} ColoredCardsNotWild(cs: seq<string>)
    requires forall k :: 0 <= k < |cs| ==> cs[k] != WILD
    ensures WildCount(ColoredCards(cs)) == 0
  {
    if cs != [] {
      var init := cs[..|cs| - 1];
      ColoredCardsNotWild(init);
      ColorBlockNotWild(cs[|cs| - 1], VALUES);
      WildCountAppend(ColoredCards(init), ColorBlock(cs[|cs| - 1], VALUES));
    }
  }

  lemma {:induction false} WildCardsAllWild(n: nat)
    requires n <= 10
    ensures WildCount(WildCards(n)) == 2 * n
  {
    if n > 0 {
      var a := Card(WILD, WILD, WILD + "-" + Digit(n - 1));
      var b := Card(WILD, WILD4, WILD4 + "-" + Digit(n - 1));
      WildCardsAllWild(n - 1);
      assert WildCards(n) == WildCards(n - 1) + [a, b];
      WildCountAppend(WildCards(n - 1), [a, b]);
      assert [a, b][..1] == [a];
      assert [a][..0] == [];
      assert WildCount([a]) == 1;
      assert WildCount([a, b]) == 2;
    }
  }

  /** Eight of the 108 cards are wild, in whatever order the shuffle leaves them. */
  lemma OrderedDeckWilds()
    ensures WildCount(OrderedDeck()) == 2 * WILD_COPIES
  {
    ColoredCardsNotWild(COLORS);
    WildCardsAllWild(WILD_COPIES);
    WildCountAppend(ColoredCards(COLORS), WildCards(WILD_COPIES));
  }

  lemma {:induction false} AllWildCount(s: seq<Card>)
    requires !HasNonWild(s)
    ensures WildCount(s) == |s|
  {
    if s != [] {
      var t := s[..|s| - 1];
      assert !HasNonWild(t) by {
        forall k | 0 <= k < |t| ensures IsWild(t[k]) {
          assert t[k] == s[k];
        }
      }
      AllWildCount(s[..|s| - 1]);
      assert IsWild(s[|s| - 1]);
    }
  }

  /** What a shuffle of the deck keeps: its 108 cards, eight of them wild. */
  lemma FullDeckFacts(s: seq<Card>)
    requires multiset(s) == multiset(OrderedDeck())
    ensures |s| == 108 && WildCount(s) == 2 * WILD_COPIES
  {
    DeckSize();
    assert |multiset(s)| == |multiset(OrderedDeck())|;
    OrderedDeckWilds();
    WildCountPerm(s, OrderedDeck());
  }

  /**
   * Any nine cards of a shuffled deck include a non-wild one: only eight are wild.
   * This bounds the rotation loop of start, which looks for a non-wild starting card.
   */
  lemma NonWildAmongFew(s: seq<Card>, m: nat)
    requires WildCount(s) < m <= |s|
    ensures HasNonWild(s[..m])
  {
    WildCountSplit(s, m);
    WildCountBound(s[m..]);
    if !HasNonWild(s[..m]) {
      AllWildCount(s[..m]);
    }
  }

  lemma WildCountSplit(s: seq<Card>, m: nat)
    requires m <= |s|
    ensures WildCount(s) == WildCount(s[..m]) + WildCount(s[m..])
  {
    assert s == s[..m] + s[m..];
    WildCountAppend(s[..m], s[m..]);
  }

  lemma {:induction false} WildCountBound(s: seq<Card>)
    ensures WildCount(s) <= |s|
  {
    if s != [] {
      WildCountBound(s[..|s| - 1]);
    }
  }
}
