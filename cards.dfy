/**
 * Cards and the deck: the 108-card deck that create_deck builds, the shuffle it
 * ends with, the pops that deal from the end of a pile, and the four-character
 * lobby codes.
 */
module Cards {

  /** A card as the server stores it: three strings, never mutated. */
  datatype Card = Card(color: string, value: string, id: string)

  const COLORS: seq<string> := ["red", "blue", "green", "yellow"]
  const VALUES: seq<string> := ["0", "1", "2", "3", "4", "5", "6", "7", "8", "9", "skip", "reverse", "draw2"]
  const WILD: string := "wild"
  const WILD4: string := "wild4"
  /** Number of copies of each wild kind. */
  const WILD_COPIES: nat := 4
  const CODE_CHARS: string := "ABCDEFGHJKLMNPQRSTUVWXYZ23456789"

  predicate IsWild(c: Card) {
    c.color == WILD
  }

  predicate HasNonWild(s: seq<Card>) {
    exists k :: 0 <= k < |s| && !IsWild(s[k])
  }

  /** Copies of a coloured card per colour and value: one "0", two of the rest. */
  function Copies(value: string): nat {
    if value == "0" then 1 else 2
  }

  // ---------------------------------------------------------------------------
  // The deck in the order the nested loops of create_deck produce it
  // ---------------------------------------------------------------------------

  /** The cards one (colour, value) iteration appends: copy 1, and copy 2 unless the value is "0". */
  function ValueCards(color: string, value: string): seq<Card> {
    [Card(color, value, color + "-" + value + "-1")]
    + (if value != "0" then [Card(color, value, color + "-" + value + "-2")] else [])
  }

  /** The cards the inner loop appends for one colour over `values`. */
  function ColorBlock(color: string, values: seq<string>): seq<Card> {
    if values == [] then []
    else ColorBlock(color, values[..|values| - 1]) + ValueCards(color, values[|values| - 1])
  }

  /** The cards the outer loop appends over `colors`. */
  function ColoredCards(colors: seq<string>): seq<Card> {
    if colors == [] then []
    else ColoredCards(colors[..|colors| - 1]) + ColorBlock(colors[|colors| - 1], VALUES)
  }

  /** The decimal rendering of a one-digit number. */
  function Digit(i: nat): (s: string)
    requires i < 10
    ensures |s| == 1 && '0' <= s[0] <= '9'
  {
    [(('0' as int) + i) as char]
  }

  /** The wild cards the second loop appends in its first `n` iterations. */
  function WildCards(n: nat): seq<Card>
    requires n <= 10
  {
    if n == 0 then []
    else WildCards(n - 1) + [Card(WILD, WILD, WILD + "-" + Digit(n - 1)), Card(WILD, WILD4, WILD4 + "-" + Digit(n - 1))]
  }

  /** The deck before shuffling. */
  function OrderedDeck(): seq<Card> {
    ColoredCards(COLORS) + WildCards(WILD_COPIES)
  }

  // ---------------------------------------------------------------------------
  // random.shuffle: the Fisher-Yates shuffle, with its random draws as a parameter
  // ---------------------------------------------------------------------------

  function Swap<T>(s: seq<T>, i: nat, j: nat): (r: seq<T>)
    requires i < |s| && j < |s|
    ensures |r| == |s| && r[i] == s[j] && r[j] == s[i]
    ensures forall k :: 0 <= k < |s| && k != i && k != j ==> r[k] == s[k]
    ensures multiset(r) == multiset(s)
  {
    var t := s[i := s[j]];
    assert multiset(t) == multiset(s) - multiset{s[i]} + multiset{s[j]};
    t[j := s[i]]
  }

  /**
   * The positions below `i` of `s` after the shuffle loop has run on positions
   * i-1 down to 1: at position p it swaps with a position below or at p, picked
   * by the next random draw. The k-th draw of the whole shuffle is rand(k).
   */
  function ShuffleFrom<T>(s: seq<T>, rand: nat -> nat, i: nat): (r: seq<T>)
    requires i <= |s|
    ensures |r| == |s| && multiset(r) == multiset(s)
    ensures forall k :: i <= k < |s| ==> r[k] == s[k]
    decreases i
  {
    if i <= 1 then s
    else ShuffleFrom(Swap(s, i - 1, rand(|s| - i) % i), rand, i - 1)
  }

  /** random.shuffle(s) given the random draws `rand`: a permutation of `s`. */
  function Shuffle<T>(s: seq<T>, rand: nat -> nat): (r: seq<T>)
    ensures |r| == |s| && multiset(r) == multiset(s)
  {
    ShuffleFrom(s, rand, |s|)
  }

  /** create_deck: the ordered deck, then shuffled. */
  method CreateDeck(rand: nat -> nat) returns (deck: seq<Card>)
    ensures deck == Shuffle(OrderedDeck(), rand)
  {
    deck := [];
    for ci := 0 to |COLORS|
      invariant deck == ColoredCards(COLORS[..ci])
    {
      deck := AppendColor(deck, COLORS[ci]);
      ColoredCardsStep(COLORS, ci);
    }
    assert COLORS[..|COLORS|] == COLORS;
    for i := 0 to WILD_COPIES
      invariant deck == ColoredCards(COLORS) + WildCards(i)
    {
      deck := deck + [Card(WILD, WILD, WILD + "-" + Digit(i))];
      deck := deck + [Card(WILD, WILD4, WILD4 + "-" + Digit(i))];
    }
    deck := Shuffle(deck, rand);
  }

  /** One iteration of create_deck's outer loop: the inner loop over the values of one colour. */
  method AppendColor(deck: seq<Card>, color: string) returns (r: seq<Card>)
    ensures r == deck + ColorBlock(color, VALUES)
  {
    r := deck;
    for vi := 0 to |VALUES|
      invariant r == deck + ColorBlock(color, VALUES[..vi])
    {
      var value := VALUES[vi];
      r := r + [Card(color, value, color + "-" + value + "-1")];
      if value != "0" {
        r := r + [Card(color, value, color + "-" + value + "-2")];
      }
      ColorBlockStep(color, VALUES, vi);
    }
    assert VALUES[..|VALUES|] == VALUES;
  }

  lemma ColorBlockStep(color: string, values: seq<string>, k: nat)
    requires k < |values|
    ensures ColorBlock(color, values[..k + 1]) == ColorBlock(color, values[..k]) + ValueCards(color, values[k])
    ensures k + 1 == |values| ==> ColorBlock(color, values[..k + 1]) == ColorBlock(color, values)
  {
    assert values[..k + 1][..k] == values[..k];
    assert k + 1 == |values| ==> values[..k + 1] == values;
  }

  lemma ColoredCardsStep(colors: seq<string>, k: nat)
    requires k < |colors|
    ensures ColoredCards(colors[..k + 1]) == ColoredCards(colors[..k]) + ColorBlock(colors[k], VALUES)
  {
    assert colors[..k + 1][..k] == colors[..k];
  }

  // ---------------------------------------------------------------------------
  // Popping from the end of a pile
  // ---------------------------------------------------------------------------

  /** The cards `count` successive `pop()` calls take off the end of `pile`, in the order taken. */
  function Top<T>(pile: seq<T>, count: nat): (r: seq<T>)
    requires count <= |pile|
    ensures |r| == count
  {
    if count == 0 then [] else Top(pile, count - 1) + [pile[|pile| - count]]
  }

  /** The k-th card popped is the k-th from the end. */
  lemma {:induction false} TopAt<T>(pile: seq<T>, count: nat, k: nat)
    requires k < count <= |pile|
    ensures Top(pile, count)[k] == pile[|pile| - 1 - k]
  {
    if k < count - 1 {
      TopAt(pile, count - 1, k);
    }
  }

  /** The cards after `count` pops: the popped ones and the rest of the pile. */
  ghost function Split<T>(pile: seq<T>, count: nat): multiset<T>
    requires count <= |pile|
  {
    multiset(Top(pile, count)) + multiset(pile[..|pile| - count])
  }

  /** Popping `count` cards moves them from the pile to the popped sequence: no card is lost or created. */
  lemma {:induction false} TopSplit<T>(pile: seq<T>, count: nat)
    requires count <= |pile|
    ensures Split(pile, count) == multiset(pile)
    decreases count
  {
    if count == 0 {
      TopNone(pile);
    } else {
      TopSplit(pile, count - 1);
      TopStep(pile, count);
    }
  }

  lemma TopStep<T>(pile: seq<T>, count: nat)
    requires 0 < count <= |pile|
    ensures Split(pile, count) == Split(pile, count - 1)
  {
    TopSnoc(pile, count);
    PrefixSnoc(pile, count);
    MultisetShift(multiset(Top(pile, count)), multiset(Top(pile, count - 1)), multiset{pile[|pile| - count]},
                  multiset(pile[..|pile| - count]), multiset(pile[..|pile| - (count - 1)]), Split(pile, count - 1));
  }

  lemma TopNone<T>(pile: seq<T>)
    ensures Split(pile, 0) == multiset(pile)
  {
    assert pile[..|pile|] == pile;
  }

  lemma TopSnoc<T>(pile: seq<T>, count: nat)
    requires 0 < count <= |pile|
    ensures multiset(Top(pile, count)) == multiset(Top(pile, count - 1)) + multiset{pile[|pile| - count]}
  {
  }

  lemma PrefixSnoc<T>(pile: seq<T>, count: nat)
    requires 0 < count <= |pile|
    ensures multiset(pile[..|pile| - (count - 1)]) == multiset(pile[..|pile| - count]) + multiset{pile[|pile| - count]}
  {
    var k := |pile| - count;
    assert pile[..k + 1] == pile[..k] + [pile[k]];
  }

  /** Moving x from one side to the other: what one pop does to the two multisets. */
  lemma MultisetShift<T>(taken: multiset<T>, taken0: multiset<T>, x: multiset<T>,
                         left: multiset<T>, left0: multiset<T>, all: multiset<T>)
    requires taken0 + left0 == all && taken == taken0 + x && left0 == left + x
    ensures taken + left == all
  {
  }

  // ---------------------------------------------------------------------------
  // Lobby codes
  // ---------------------------------------------------------------------------

  /** generate_game_code: four characters, the k-th chosen by the draw rand(k). */
  function GameCode(rand: nat -> nat): (code: string)
    ensures |code| == 4
    ensures forall k :: 0 <= k < 4 ==> code[k] in CODE_CHARS
  {
    seq(4, k requires 0 <= k => CODE_CHARS[rand(k) % |CODE_CHARS|])
  }
}
