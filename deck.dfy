/** Reference semantics of the shuffle on an explicit deck.

    A deck is the sequence of card numbers from top (position 0) to bottom.
    The three shuffle techniques are written here the way the puzzle describes
    them, card by card, independently of the (offset, increment) arithmetic of
    the solver; the Shuffle module proves that arithmetic against these
    definitions.
 */
module Deck {
  import opened ModArith
  import opened Fermat

  /** One line of the shuffle process. `Unknown` stands for a line that matches
      none of the three techniques. */
  datatype Op = NewStack | Cut(n: int) | DealIncrement(n: int) | Unknown

  /** A new deck in factory order: card i at position i. */
  function FactoryDeck(n: nat): (d: seq<int>)
    ensures |d| == n && forall i :: 0 <= i < n ==> d[i] == i
  {
    seq(n, i => i)
  }

  /** "deal into new stack": the order of the deck is reversed. */
  function NewStackDeck(d: seq<int>): (r: seq<int>)
    ensures |r| == |d| && forall i :: 0 <= i < |d| ==> r[i] == d[|d| - 1 - i]
  {
    seq(|d|, i requires 0 <= i < |d| => d[|d| - 1 - i])
  }

  /** "cut k": the top k cards move to the bottom, in order; for a negative k
      the bottom |k| cards move to the top. */
  function CutDeck(d: seq<int>, k: int): (r: seq<int>)
    requires |d| > 0
    ensures |r| == |d| && multiset(r) == multiset(d)
  {
    var c := k % |d|;
    assert d == d[..c] + d[c..];
    d[c..] + d[..c]
  }

  /** Where "deal with increment k" puts the j-th card of the deck. */
  function Slot(j: int, k: int, n: int): int
    requires n > 0
  {
    (j * k) % n
  }

  /** The dealing loop of "deal with increment k", from the j-th card on: card
      j is laid on the table at Slot(j, k), the next card k places further on,
      wrapping around. */
  function DealFrom(d: seq<int>, k: int, j: nat, table: seq<int>): (r: seq<int>)
    requires |table| == |d| > 0 && j <= |d|
    ensures |r| == |d|
    decreases |d| - j
  {
    if j == |d| then table else DealFrom(d, k, j + 1, table[Slot(j, k, |d|) := d[j]])
  }

  /** "deal with increment k", starting from an empty table. */
  function DealDeck(d: seq<int>, k: int): (r: seq<int>)
    requires |d| > 0
    ensures |r| == |d|
  {
    DealFrom(d, k, 0, seq(|d|, _ => 0))
  }

  function ApplyOp(d: seq<int>, op: Op): (r: seq<int>)
    requires |d| > 0
    ensures |r| == |d|
  {
    match op
    case NewStack => NewStackDeck(d)
    case Cut(k) => CutDeck(d, k)
    case DealIncrement(k) => DealDeck(d, k)
    case Unknown => d
  }

  /** The whole shuffle process, one line after the other. */
  function ShuffleDeck(d: seq<int>, ops: seq<Op>): (r: seq<int>)
    requires |d| > 0
    ensures |r| == |d|
    decreases |ops|
  {
    if ops == [] then d else ShuffleDeck(ApplyOp(d, ops[0]), ops[1..])
  }

  /** The whole shuffle process applied `times` times in a row. */
  function RepeatShuffle(d: seq<int>, ops: seq<Op>, times: nat): (r: seq<int>)
    requires |d| > 0
    ensures |r| == |d|
  {
    if times == 0 then d else ShuffleDeck(RepeatShuffle(d, ops, times - 1), ops)
  }

  /** The deck size is prime and no line deals with an increment that is a
      multiple of it: only then is every "deal with increment" a permutation. */
  ghost predicate Dealable(n: int, ops: seq<Op>)
  {
    forall i :: 0 <= i < |ops| && ops[i].DealIncrement? ==> IsPrime(n) && ops[i].n % n != 0
  }

  /** Different cards are dealt to different places when the deck size is a
      prime that does not divide the increment. */
  lemma SlotInjective(n: int, k: int, a: int, b: int)
    requires IsPrime(n) && k % n != 0
    requires 0 <= a < n && 0 <= b < n && Slot(a, k, n) == Slot(b, k, n)
    ensures a == b
  {
    ModEqIffDiff(a * k, b * k, n);
    assert k * (a - b) == a * k - b * k;
    Euclid(n, k, a - b);
    MultipleOfMod(a - b, n);
    MulSign((a - b) / n, n);
  }

  /** A position no later card is dealt to keeps what the table had there. */
  lemma {:induction false} DealFromKeeps(d: seq<int>, k: int, j: nat, table: seq<int>, pos: int)
    requires |table| == |d| > 0 && j <= |d| && 0 <= pos < |d|
    requires forall i :: j <= i < |d| ==> Slot(i, k, |d|) != pos
    ensures DealFrom(d, k, j, table)[pos] == table[pos]
    decreases |d| - j
  {
    if j < |d| {
      DealFromKeeps(d, k, j + 1, table[Slot(j, k, |d|) := d[j]], pos);
    }
  }

  /** Every card from the j-th on ends up at its own slot. */
  lemma {:induction false} DealFromPlaces(d: seq<int>, k: int, j: nat, table: seq<int>, i: int)
    requires |table| == |d| > 0 && j <= i < |d|
    requires IsPrime(|d|) && k % |d| != 0
    ensures DealFrom(d, k, j, table)[Slot(i, k, |d|)] == d[i]
    decreases |d| - j
  {
    var n := |d|;
    var table' := table[Slot(j, k, n) := d[j]];
    if j == i {
      forall i' | j + 1 <= i' < n
        ensures Slot(i', k, n) != Slot(i, k, n)
      {
        if Slot(i', k, n) == Slot(i, k, n) {
          SlotInjective(n, k, i', i);
        }
      }
      DealFromKeeps(d, k, j + 1, table', Slot(i, k, n));
    } else {
      DealFromPlaces(d, k, j + 1, table', i);
    }
  }

  /** "deal with increment k" puts the j-th card at position j*k mod n. */
  lemma DealDeckPlaces(d: seq<int>, k: int, j: int)
    requires |d| > 0 && IsPrime(|d|) && k % |d| != 0 && 0 <= j < |d|
    ensures DealDeck(d, k)[Slot(j, k, |d|)] == d[j]
  {
    DealFromPlaces(d, k, 0, seq(|d|, _ => 0), j);
  }
}
