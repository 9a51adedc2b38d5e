/** The solver for a shuffle repeated an astronomical number of times.

    A deck of n cards in factory order is shuffled by a list of lines (Op).
    After any prefix of the lines, the card at position p is an affine function
    of p modulo n, so the solver keeps just the pair (offset, increment) and
    folds every line into it. The whole shuffle is then applied `repeats` times
    by raising that affine map to the `repeats`-th power in closed form
    (a power and a geometric series), and the answer is the card at position
    2020.

    The deck size and the repeat count are constants of the program
    (N_CARDS, REPEATS); the operations here take them as parameters n and
    repeats so that their properties are stated for every deck size, and
    CardAtPosition2020 passes the constants.
 */
module Shuffle {
  import opened ModArith
  import opened Fermat
  import opened Deck

  const N_CARDS: int := 119315717514047
  const REPEATS: nat := 101741582076661

  /** The pair the solver keeps: the card at position p is
      (offset + increment * p) mod n. */
  datatype Affine = Affine(offset: int, increment: int)

  /** The starting pair (0, 1): the deck in factory order. */
  const Identity: Affine := Affine(0, 1)

  predicate InRange(n: int, a: Affine)
  {
    0 <= a.offset < n && 0 <= a.increment < n
  }

  /** The card at position p of the deck that a describes. */
  function CardAt(n: int, a: Affine, p: int): int
    requires n > 0
  {
    (a.offset + a.increment * p) % n
  }

  /** The deck that a describes, position by position. */
  function AffineDeck(n: int, a: Affine): (d: seq<int>)
    requires n > 0
    ensures |d| == n && forall p :: 0 <= p < n ==> d[p] == CardAt(n, a, p)
  {
    seq(n, p => CardAt(n, a, p))
  }

  // ---------------------------------------------------------------------
  // The modular inverse
  // ---------------------------------------------------------------------

  /** inverse_in_modulo: x^(n-2) reduced modulo n, through Python's pow. */
  function InverseInModulo(n: int, x: int): (r: int)
    requires n >= 2
    ensures 0 <= r < n && r == Pow(x, n - 2) % n
  {
    ModPow(x, n - 2, n)
  }

  /** By Fermat's little theorem the result is the multiplicative inverse of x
      when n is prime and does not divide x. */
  lemma InverseInModuloIsInverse(n: int, x: int)
    requires IsPrime(n) && x % n != 0
    ensures (x * InverseInModulo(n, x)) % n == 1
  {
    ModMod(Pow(x, n - 2), n);
    ModMul(x, InverseInModulo(n, x), x, Pow(x, n - 2), n);
    assert x * Pow(x, n - 2) == Pow(x, n - 1);
    FermatLittle(n, x);
  }

  // ---------------------------------------------------------------------
  // Folding the lines into one pair
  // ---------------------------------------------------------------------

  /** One iteration of the loop of calculate_offset_and_increment. */
  function Step(n: int, s: Affine, op: Op): (r: Affine)
    requires n >= 2
    ensures InRange(n, s) ==> InRange(n, r)
    ensures op.Cut? ==> r.increment == s.increment
    ensures op.DealIncrement? ==> r.offset == s.offset
    ensures op.Unknown? ==> r == s
  {
    match op
    case NewStack =>
      var increment := (-s.increment) % n;
      Affine((s.offset + increment) % n, increment)
    case Cut(k) =>
      Affine((s.offset + s.increment * k) % n, s.increment)
    case DealIncrement(k) =>
      Affine(s.offset, (s.increment * InverseInModulo(n, k)) % n)
    case Unknown =>
      s
  }

  /** The loop of calculate_offset_and_increment as a left fold from s. */
  function Fold(n: int, s: Affine, ops: seq<Op>): (r: Affine)
    requires n >= 2
    ensures InRange(n, s) ==> InRange(n, r)
    decreases |ops|
  {
    if ops == [] then s else Fold(n, Step(n, s, ops[0]), ops[1..])
  }

  /** Processing ops1 + ops2 is processing ops2 from the pair ops1 leaves. */
  lemma {:induction false} FoldAppend(n: int, s: Affine, ops1: seq<Op>, ops2: seq<Op>)
    requires n >= 2
    ensures Fold(n, s, ops1 + ops2) == Fold(n, Fold(n, s, ops1), ops2)
    decreases |ops1|
  {
    if ops1 == [] {
      assert ops1 + ops2 == ops2;
    } else {
      assert (ops1 + ops2)[1..] == ops1[1..] + ops2;
      FoldAppend(n, Step(n, s, ops1[0]), ops1[1..], ops2);
    }
  }

  /** calculate_offset_and_increment: the loop over the lines, updating offset
      and increment in place exactly as the source does. */
  method CalculateOffsetAndIncrement(n: int, operations: seq<Op>) returns (offset: int, increment: int)
    requires n >= 2
    ensures Affine(offset, increment) == Fold(n, Identity, operations)
    ensures 0 <= offset < n && 0 <= increment < n
    ensures operations == [] ==> offset == 0 && increment == 1
  {
    offset, increment := 0, 1;
    for i := 0 to |operations|
      invariant Affine(offset, increment) == Fold(n, Identity, operations[..i])
      invariant 0 <= offset < n && 0 <= increment < n
    {
      match operations[i] {
        case NewStack =>
          increment := increment * -1;
          increment := increment % n;
          offset := offset + increment;
          offset := offset % n;
        case Cut(k) =>
          offset := offset + increment * k;
          offset := offset % n;
        case DealIncrement(k) =>
          increment := increment * InverseInModulo(n, k);
          increment := increment % n;
        case Unknown =>
      }
      assert operations[..i + 1] == operations[..i] + [operations[i]];
      FoldAppend(n, Identity, operations[..i], [operations[i]]);
    }
    assert operations[..|operations|] == operations;
  }

  /** "deal into new stack" negates the increment first and then adds the new
      increment to the offset, so the new offset is offset - increment. */
  lemma NewStackOrder(n: int, s: Affine)
    requires n >= 2
    ensures Step(n, s, NewStack) == Affine((s.offset - s.increment) % n, (-s.increment) % n)
  {
    var o, i := s.offset, s.increment;
    var r := Step(n, s, NewStack);
    assert r.increment == (-i) % n;
    calc {
      r.offset;
      (o + (-i) % n) % n;
      { ModSubRight(o, i, n); }
      (o - i) % n;
    }
  }

  // ---------------------------------------------------------------------
  // What a pair means
  // ---------------------------------------------------------------------

  /** Congruent pairs at congruent positions name the same card. */
  lemma CardAtCongruent(n: int, a: Affine, b: Affine, p: int, q: int)
    requires n > 0
    requires a.offset % n == b.offset % n && a.increment % n == b.increment % n && p % n == q % n
    ensures CardAt(n, a, p) == CardAt(n, b, q)
  {
    ModMul(a.increment, p, b.increment, q, n);
    ModAdd(a.offset, a.increment * p, b.offset, b.increment * q, n);
  }

  /** One line composes the map of the pair on the right: the card at position
      q after the line is the card that was at the position the line moves to q. */
  lemma StepComposes(n: int, a: Affine, op: Op, q: int)
    requires n >= 2
    ensures CardAt(n, Step(n, a, op), q) == CardAt(n, a, CardAt(n, Step(n, Identity, op), q))
  {
    match op
    case NewStack => NewStackComposes(n, a, q);
    case Cut(k) => CutComposes(n, a, k, q);
    case DealIncrement(k) => DealComposes(n, a, k, q);
    case Unknown =>
      ModSmall(0, n);
      ModMod(q, n);
      CardAtCongruent(n, a, a, CardAt(n, Identity, q), q);
  }

  lemma NewStackComposes(n: int, a: Affine, q: int)
    requires n >= 2
    ensures CardAt(n, Step(n, a, NewStack), q) == CardAt(n, a, CardAt(n, Step(n, Identity, NewStack), q))
  {
    var o, i := a.offset, a.increment;
    var src := CardAt(n, Step(n, Identity, NewStack), q);
    assert src % n == (-1 - q) % n by {
      NewStackOrder(n, Identity);
      ModMod(-1, n);
      CardAtCongruent(n, Step(n, Identity, NewStack), Affine(-1, -1), q, q);
      ModMod(-1 - q, n);
    }
    calc {
      CardAt(n, Step(n, a, NewStack), q);
      { NewStackOrder(n, a);
        ModMod(o - i, n);
        ModMod(-i, n);
        CardAtCongruent(n, Step(n, a, NewStack), Affine(o - i, -i), q, q); }
      (o - i + -i * q) % n;
      { NegDistribute(o, i, q); }
      (o + i * (-1 - q)) % n;
      { CardAtCongruent(n, a, a, -1 - q, src); }
      CardAt(n, a, src);
    }
  }

  lemma NegDistribute(o: int, i: int, q: int)
    ensures o - i + -i * q == o + i * (-1 - q)
  {
  }

  lemma CutComposes(n: int, a: Affine, k: int, q: int)
    requires n >= 2
    ensures CardAt(n, Step(n, a, Cut(k)), q) == CardAt(n, a, CardAt(n, Step(n, Identity, Cut(k)), q))
  {
    var o, i := a.offset, a.increment;
    var src := CardAt(n, Step(n, Identity, Cut(k)), q);
    assert src == (k + q) % n by {
      assert src == ((0 + 1 * k) % n + 1 * q) % n;
      ModAddLeft(k, q, n);
    }
    ModMod(k + q, n);
    calc {
      CardAt(n, Step(n, a, Cut(k)), q);
      ((o + i * k) % n + i * q) % n;
      { ModAddLeft(o + i * k, i * q, n); }
      (o + i * k + i * q) % n;
      { Distribute(o, i, k, q); }
      (o + i * (k + q)) % n;
      { CardAtCongruent(n, a, a, k + q, src); }
      CardAt(n, a, src);
    }
  }

  lemma Distribute(o: int, i: int, k: int, q: int)
    ensures o + i * k + i * q == o + i * (k + q)
  {
  }

  lemma DealComposes(n: int, a: Affine, k: int, q: int)
    requires n >= 2
    ensures CardAt(n, Step(n, a, DealIncrement(k)), q)
         == CardAt(n, a, CardAt(n, Step(n, Identity, DealIncrement(k)), q))
  {
    var o, i := a.offset, a.increment;
    var inv := InverseInModulo(n, k);
    var src := CardAt(n, Step(n, Identity, DealIncrement(k)), q);
    assert src == (inv * q) % n by {
      ModSmall(inv, n);
      assert src == (0 + ((1 * inv) % n) * q) % n;
    }
    ModMod(inv * q, n);
    ModMod(i * inv, n);
    calc {
      CardAt(n, Step(n, a, DealIncrement(k)), q);
      CardAt(n, Affine(o, (i * inv) % n), q);
      { CardAtCongruent(n, Affine(o, (i * inv) % n), Affine(o, i * inv), q, q); }
      (o + (i * inv) * q) % n;
      { MulAssoc(i, inv, q); }
      (o + i * (inv * q)) % n;
      { CardAtCongruent(n, a, a, inv * q, src); }
      CardAt(n, a, src);
    }
  }

  lemma MulAssoc(x: int, y: int, z: int)
    ensures (x * y) * z == x * (y * z)
  {
  }

  /** The pair folded from a is the pair folded from the identity, composed
      after a: shuffling a deck described by a gives the deck whose card at p
      is a's card at the position the whole shuffle moves to p. */
  lemma {:induction false} FoldComposes(n: int, a: Affine, ops: seq<Op>, p: int)
    requires n >= 2
    ensures CardAt(n, Fold(n, a, ops), p) == CardAt(n, a, CardAt(n, Fold(n, Identity, ops), p))
    decreases |ops|
  {
    if ops == [] {
      ModMod(p, n);
      CardAtCongruent(n, a, a, p, CardAt(n, Identity, p));
    } else {
      var op, rest := ops[0], ops[1..];
      var q := CardAt(n, Fold(n, Identity, rest), p);
      FoldComposes(n, Step(n, a, op), rest, p);
      StepComposes(n, a, op, q);
      FoldComposes(n, Step(n, Identity, op), rest, p);
    }
  }

  /** The pair the loop starts from describes the factory order. */
  lemma IdentityIsFactoryOrder(n: int)
    requires n >= 2
    ensures AffineDeck(n, Identity) == FactoryDeck(n)
  {
  }

  /** Starting from the identity, one line describes the deck technique it
      stands for, position by position. */
  lemma OpMatchesDeck(n: int, op: Op, d: seq<int>, p: int)
    requires n >= 2 && |d| == n && 0 <= p < n
    requires op.DealIncrement? ==> IsPrime(n) && op.n % n != 0
    ensures 0 <= CardAt(n, Step(n, Identity, op), p) < n
    ensures ApplyOp(d, op)[p] == d[CardAt(n, Step(n, Identity, op), p)]
  {
    match op
    case NewStack => NewStackMatchesDeck(n, d, p);
    case Cut(k) => CutMatchesDeck(n, k, d, p);
    case DealIncrement(k) => DealMatchesDeck(n, k, d, p);
    case Unknown => ModSmall(0, n); ModSmall(p, n);
  }

  /** Reversal: position p receives the card from position n - 1 - p. */
  lemma NewStackMatchesDeck(n: int, d: seq<int>, p: int)
    requires n >= 2 && |d| == n && 0 <= p < n
    ensures CardAt(n, Step(n, Identity, NewStack), p) == n - 1 - p
    ensures ApplyOp(d, NewStack)[p] == d[n - 1 - p]
  {
    NewStackOrder(n, Identity);
    ModMod(-1, n);
    calc {
      CardAt(n, Step(n, Identity, NewStack), p);
      { CardAtCongruent(n, Step(n, Identity, NewStack), Affine(-1, -1), p, p); }
      (-1 + -1 * p) % n;
      { ModMultipleAdd(1, n, -1 - p); }
      (1 * n + (-1 - p)) % n;
      { ModSmall(n - 1 - p, n); }
      n - 1 - p;
    }
  }

  /** Cutting k cards: position p receives the card from position (p + k) mod n. */
  lemma CutMatchesDeck(n: int, k: int, d: seq<int>, p: int)
    requires n >= 2 && |d| == n && 0 <= p < n
    ensures CardAt(n, Step(n, Identity, Cut(k)), p) == (k % n + p) % n
    ensures ApplyOp(d, Cut(k))[p] == d[(k % n + p) % n]
  {
    var c := k % n;
    ModSmall(0, n);
    assert Step(n, Identity, Cut(k)) == Affine(c, 1);
    if c + p < n {
      ModSmall(c + p, n);
      assert CutDeck(d, k)[p] == d[c..][p];
    } else {
      ModMultipleAdd(-1, n, c + p);
      ModSmall(c + p - n, n);
      assert CutDeck(d, k)[p] == d[..c][p - (n - c)];
    }
  }

  /** Dealing with increment k: position p receives the card that was at
      position j with j * k == p (mod n), that is j == p * k^(n-2) mod n. */
  lemma DealMatchesDeck(n: int, k: int, d: seq<int>, p: int)
    requires IsPrime(n) && k % n != 0 && |d| == n && 0 <= p < n
    ensures CardAt(n, Step(n, Identity, DealIncrement(k)), p) == (InverseInModulo(n, k) * p) % n
    ensures ApplyOp(d, DealIncrement(k))[p] == d[(InverseInModulo(n, k) * p) % n]
  {
    var inv := InverseInModulo(n, k);
    var src := (inv * p) % n;
    ModMod(inv, n);
    ModSmall(0, n);
    CardAtCongruent(n, Step(n, Identity, DealIncrement(k)), Affine(0, inv), p, p);
    DealDeckPlaces(d, k, src);
    calc {
      Slot(src, k, n);
      ((inv * p) % n * k) % n;
      { ModMod(inv * p, n); ModMul((inv * p) % n, k, inv * p, k, n); }
      (inv * p * k) % n;
      { MulRotate(inv, p, k); }
      (p * (k * inv)) % n;
      { InverseInModuloIsInverse(n, k);
        ModMod(k * inv, n);
        ModMul(p, k * inv, p, 1, n); }
      p % n;
      { ModSmall(p, n); }
      p;
    }
  }

  /** The pair after one line describes the deck after that line. */
  lemma StepMatchesDeck(n: int, a: Affine, op: Op)
    requires n >= 2
    requires op.DealIncrement? ==> IsPrime(n) && op.n % n != 0
    ensures AffineDeck(n, Step(n, a, op)) == ApplyOp(AffineDeck(n, a), op)
  {
    var d := AffineDeck(n, a);
    forall p | 0 <= p < n
      ensures AffineDeck(n, Step(n, a, op))[p] == ApplyOp(d, op)[p]
    {
      StepComposes(n, a, op, p);
      OpMatchesDeck(n, op, d, p);
    }
  }

  /** The pair after the whole fold describes the deck after the whole shuffle. */
  lemma {:induction false} FoldMatchesDeck(n: int, a: Affine, ops: seq<Op>)
    requires n >= 2 && Dealable(n, ops)
    ensures AffineDeck(n, Fold(n, a, ops)) == ShuffleDeck(AffineDeck(n, a), ops)
    decreases |ops|
  {
    if ops != [] {
      assert ops[0] == ops[..1][0];
      StepMatchesDeck(n, a, ops[0]);
      assert forall i :: 0 <= i < |ops| - 1 ==> ops[1..][i] == ops[i + 1];
      FoldMatchesDeck(n, Step(n, a, ops[0]), ops[1..]);
    }
  }

  // ---------------------------------------------------------------------
  // Repeating the shuffle
  // ---------------------------------------------------------------------

  /** The map p -> card at p, applied `times` times. */
  function Iterate(n: int, m: Affine, times: nat, p: int): int
    requires n > 0
  {
    if times == 0 then p % n else Iterate(n, m, times - 1, CardAt(n, m, p))
  }

  /** The pair after running the fold `times` times in a row from the identity. */
  function RepeatedFold(n: int, ops: seq<Op>, times: nat): (r: Affine)
    requires n >= 2
    ensures InRange(n, r)
  {
    if times == 0 then Identity else Fold(n, RepeatedFold(n, ops, times - 1), ops)
  }

  /** Shuffling a factory-order deck `times` times gives the deck the repeated
      fold describes. */
  lemma {:induction false} RepeatMatchesDeck(n: int, ops: seq<Op>, times: nat)
    requires n >= 2 && Dealable(n, ops)
    ensures RepeatShuffle(FactoryDeck(n), ops, times) == AffineDeck(n, RepeatedFold(n, ops, times))
  {
    if times == 0 {
      IdentityIsFactoryOrder(n);
    } else {
      RepeatMatchesDeck(n, ops, times - 1);
      FoldMatchesDeck(n, RepeatedFold(n, ops, times - 1), ops);
    }
  }

  /** The repeated fold is the single-shuffle map iterated. */
  lemma {:induction false} RepeatedFoldIterates(n: int, ops: seq<Op>, times: nat, p: int)
    requires n >= 2
    ensures CardAt(n, RepeatedFold(n, ops, times), p) == Iterate(n, Fold(n, Identity, ops), times, p)
  {
    var m := Fold(n, Identity, ops);
    if times > 0 {
      FoldComposes(n, RepeatedFold(n, ops, times - 1), ops, p);
      RepeatedFoldIterates(n, ops, times - 1, CardAt(n, m, p));
    }
  }

  /** 1 + x + ... + x^(count-1). */
  function Geometric(x: int, count: nat): int
  {
    if count == 0 then 0 else Geometric(x, count - 1) + Pow(x, count - 1)
  }

  /** The closed form of the geometric series: (1 - x) * (1 + ... + x^(c-1)) == 1 - x^c. */
  lemma {:induction false} GeometricClosedForm(x: int, count: nat)
    ensures (1 - x) * Geometric(x, count) == 1 - Pow(x, count)
  {
    if count > 0 {
      var g, w := Geometric(x, count - 1), Pow(x, count - 1);
      assert Geometric(x, count) == g + w;
      PowSucc(x, count - 1);
      GeometricClosedForm(x, count - 1);
      GeometricStep(x, g, w);
    }
  }

  /** The arithmetic of one step of GeometricClosedForm, on plain numbers. */
  lemma GeometricStep(x: int, g: int, w: int)
    requires (1 - x) * g == 1 - w
    ensures (1 - x) * (g + w) == 1 - w * x
  {
    calc {
      (1 - x) * (g + w);
      (1 - x) * g + (1 - x) * w;
      1 - w + w - w * x;
    }
  }

  /** Applying (offset, increment) `times` times sends p to
      offset * (1 + increment + ... + increment^(times-1)) + increment^times * p. */
  lemma {:induction false} IterateClosedForm(n: int, m: Affine, times: nat, p: int)
    requires n > 0
    ensures Iterate(n, m, times, p)
         == (m.offset * Geometric(m.increment, times) + Pow(m.increment, times) * p) % n
  {
    var o, i := m.offset, m.increment;
    if times > 0 {
      var q := CardAt(n, m, p);
      var g, w := Geometric(i, times - 1), Pow(i, times - 1);
      assert Geometric(i, times) == g + w;
      PowSucc(i, times - 1);
      calc {
        Iterate(n, m, times, p);
        Iterate(n, m, times - 1, q);
        { IterateClosedForm(n, m, times - 1, q); }
        (o * g + w * q) % n;
        { ModMod(o + i * p, n);
          ModMul(w, q, w, o + i * p, n);
          ModAdd(o * g, w * q, o * g, w * (o + i * p), n); }
        (o * g + w * (o + i * p)) % n;
        { ClosedFormStep(o, i, p, g, w); }
        (o * (g + w) + (w * i) * p) % n;
      }
    }
  }

  /** The arithmetic of one step of IterateClosedForm, on plain numbers. */
  lemma ClosedFormStep(o: int, i: int, p: int, g: int, w: int)
    ensures o * g + w * (o + i * p) == o * (g + w) + (w * i) * p
  {
  }

  /** apply_repeats: the offset and increment of the shuffle repeated
      `repeats` times, from the geometric series in closed form. */
  function ApplyRepeats(n: int, repeats: nat, offset: int, increment: int): (r: Affine)
    requires n >= 2
    ensures InRange(n, r)
    ensures r.increment == Pow(increment, repeats) % n
  {
    var repeatedIncrement := ModPow(increment, repeats, n);
    var repeatedOffset := offset * (1 - repeatedIncrement) * InverseInModulo(n, (1 - increment) % n);
    Affine(repeatedOffset % n, repeatedIncrement)
  }

  /** For a prime n and increment not congruent to 1, the repeated offset is the
      offset times the geometric series, and it satisfies
      (1 - increment) * repeatedOffset == offset * (1 - repeatedIncrement) (mod n). */
  lemma ApplyRepeatsGeometric(n: int, repeats: nat, offset: int, increment: int)
    requires IsPrime(n) && (1 - increment) % n != 0
    ensures ApplyRepeats(n, repeats, offset, increment).offset
         == (offset * Geometric(increment, repeats)) % n
    ensures ((1 - increment) * ApplyRepeats(n, repeats, offset, increment).offset) % n
         == (offset * (1 - ApplyRepeats(n, repeats, offset, increment).increment)) % n
  {
    var r := ApplyRepeats(n, repeats, offset, increment);
    var g, w := Geometric(increment, repeats), Pow(increment, repeats);
    var d := (1 - increment) % n;
    var inv := InverseInModulo(n, d);
    assert r.offset == (offset * (1 - r.increment) * inv) % n;
    GeometricClosedForm(increment, repeats);
    // 1 - repeatedIncrement is congruent to 1 - w, which is (1 - increment) * g
    assert (1 - r.increment) % n == ((1 - increment) * g) % n by {
      ModMod(w, n);
      ModSub(1, r.increment, 1, w, n);
    }
    // (1 - increment) * inv is congruent to d * inv, that is to 1
    assert ((1 - increment) * inv) % n == 1 % n by {
      ModMod(1 - increment, n);
      InverseInModuloIsInverse(n, d);
      ModMul(1 - increment, inv, d, inv, n);
      ModSmall(1, n);
    }
    calc {
      r.offset;
      (offset * (1 - r.increment) * inv) % n;
      { ModMul(offset, 1 - r.increment, offset, (1 - increment) * g, n);
        ModMul(offset * (1 - r.increment), inv, offset * ((1 - increment) * g), inv, n); }
      (offset * ((1 - increment) * g) * inv) % n;
      { Rearrange(offset, 1 - increment, g, inv); }
      ((offset * g) * ((1 - increment) * inv)) % n;
      { ModMul(offset * g, (1 - increment) * inv, offset * g, 1, n); }
      (offset * g) % n;
    }
    calc {
      ((1 - increment) * r.offset) % n;
      { ModMod(offset * g, n);
        ModMul(1 - increment, r.offset, 1 - increment, offset * g, n); }
      ((1 - increment) * (offset * g)) % n;
      { Rearrange(offset, 1 - increment, g, 1); }
      (offset * ((1 - increment) * g)) % n;
      { ModMul(offset, (1 - increment) * g, offset, 1 - r.increment, n); }
      (offset * (1 - r.increment)) % n;
    }
  }

  /** Reassociating the four factors of the repeated offset. */
  lemma Rearrange(o: int, c: int, g: int, v: int)
    ensures o * (c * g) * v == (o * g) * (c * v)
    ensures c * (o * g) == o * (c * g)
  {
  }

  /** For a prime n and increment not congruent to 1, the pair apply_repeats
      returns is the single-shuffle map applied `repeats` times. */
  lemma ApplyRepeatsIterates(n: int, repeats: nat, m: Affine, p: int)
    requires IsPrime(n) && (1 - m.increment) % n != 0
    ensures CardAt(n, ApplyRepeats(n, repeats, m.offset, m.increment), p) == Iterate(n, m, repeats, p)
  {
    var r := ApplyRepeats(n, repeats, m.offset, m.increment);
    var g, w := Geometric(m.increment, repeats), Pow(m.increment, repeats);
    ApplyRepeatsGeometric(n, repeats, m.offset, m.increment);
    ModMod(m.offset * g, n);
    ModMod(w, n);
    CardAtCongruent(n, r, Affine(m.offset * g, w), p, p);
    IterateClosedForm(n, m, repeats, p);
  }

  /** With an increment congruent to 1 (a shuffle made only of cuts and an even
      number of reversals), apply_repeats takes the "inverse" of 0, which is 0,
      and returns the pair (0, 1): it forgets the offset. */
  lemma ApplyRepeatsUnitIncrement(n: int, repeats: nat, offset: int, increment: int)
    requires n >= 2 && increment % n == 1
    ensures ApplyRepeats(n, repeats, offset, increment) == Affine(0, 1)
  {
    var r := ApplyRepeats(n, repeats, offset, increment);
    ModSmall(1, n);
    ModPowBase(increment, 1, repeats, n);
    PowOne(repeats);
    assert r.increment == 1;
    var inv := InverseInModulo(n, (1 - increment) % n);
    assert r.offset == (offset * (1 - r.increment) * inv) % n;
    assert offset * (1 - r.increment) * inv == 0;
    ModSmall(0, n);
  }

  /** With an increment congruent to 1, repeating the shuffle adds the offset
      once per repetition. */
  lemma {:induction false} IterateUnitIncrement(n: int, m: Affine, times: nat, p: int)
    requires n > 0 && m.increment % n == 1 % n
    ensures Iterate(n, m, times, p) == (p + times * m.offset) % n
  {
    if times > 0 {
      var q := CardAt(n, m, p);
      IterateUnitIncrement(n, m, times - 1, q);
      ModMul(m.increment, p, 1, p, n);
      ModAdd(m.offset, m.increment * p, m.offset, p, n);
      ModMod(m.offset + p, n);
      ModAdd(q, (times - 1) * m.offset, m.offset + p, (times - 1) * m.offset, n);
      assert m.offset + p + (times - 1) * m.offset == p + times * m.offset;
    }
  }

  /** apply_repeats with the increment-1 case handled: there the repeated map
      adds the offset `repeats` times. */
  function ApplyRepeatsFixed(n: int, repeats: nat, offset: int, increment: int): (r: Affine)
    requires n >= 2
    ensures InRange(n, r)
    ensures increment % n != 1 ==> r == ApplyRepeats(n, repeats, offset, increment)
  {
    if increment % n == 1 then Affine((offset * repeats) % n, 1) else ApplyRepeats(n, repeats, offset, increment)
  }

  /** For a prime n and every pair, ApplyRepeatsFixed is the single-shuffle map
      applied `repeats` times. */
  lemma ApplyRepeatsFixedIterates(n: int, repeats: nat, m: Affine, p: int)
    requires IsPrime(n)
    ensures CardAt(n, ApplyRepeatsFixed(n, repeats, m.offset, m.increment), p) == Iterate(n, m, repeats, p)
  {
    ModEqIffDiff(1, m.increment, n);
    if m.increment % n == 1 {
      IterateUnitIncrement(n, m, repeats, p);
      ModMod(m.offset * repeats, n);
      CardAtCongruent(n, ApplyRepeatsFixed(n, repeats, m.offset, m.increment),
                      Affine(repeats * m.offset, 1), p, p);
    } else {
      ApplyRepeatsIterates(n, repeats, m, p);
    }
  }

  /** A single "cut 1" shuffle, repeated `times` times: position p then holds
      card p + times, but apply_repeats, whose increment here is 1, yields the
      pair (0, 1), so the solver's formula gives p. */
  lemma CutOneRepeated(n: int, times: nat, p: int)
    requires n >= 2 && 0 <= p && p + times < n
    ensures Fold(n, Identity, [Cut(1)]) == Affine(1, 1)
    ensures RepeatShuffle(FactoryDeck(n), [Cut(1)], times)[p] == p + times
    ensures CardAt(n, ApplyRepeats(n, times, 1, 1), p) == p
  {
    ModSmall(1, n);
    var m := Fold(n, Identity, [Cut(1)]);
    assert m == Affine(1, 1) by {
      assert m == Step(n, Identity, Cut(1));
    }
    calc {
      RepeatShuffle(FactoryDeck(n), [Cut(1)], times)[p];
      { RepeatMatchesDeck(n, [Cut(1)], times); }
      CardAt(n, RepeatedFold(n, [Cut(1)], times), p);
      { RepeatedFoldIterates(n, [Cut(1)], times, p); }
      Iterate(n, m, times, p);
      { IterateUnitIncrement(n, m, times, p); }
      (p + times * 1) % n;
      { ModSmall(p + times, n); }
      p + times;
    }
    ApplyRepeatsUnitIncrement(n, times, 1, 1);
    ModSmall(p, n);
  }

  /** The instance of CutOneRepeated at the program's constants: with the one
      line "cut 1", the card at position 2020 after REPEATS shuffles is
      2020 + REPEATS, while the solver's formula gives 2020. */
  lemma CutOneCounterexample()
    ensures Fold(N_CARDS, Identity, [Cut(1)]).increment == 1
    ensures RepeatShuffle(FactoryDeck(N_CARDS), [Cut(1)], REPEATS)[2020] == 101741582078681
    ensures CardAt(N_CARDS, ApplyRepeats(N_CARDS, REPEATS, 1, 1), 2020) == 2020
  {
    CutOneRepeated(N_CARDS, REPEATS, 2020);
  }

  /** The card at position p after shuffling a factory-order deck `times`
      times is what ApplyRepeatsFixed computes from the folded pair. */
  lemma RepeatedShuffleCard(n: int, ops: seq<Op>, times: nat, p: int)
    requires IsPrime(n) && Dealable(n, ops) && 0 <= p < n
    ensures RepeatShuffle(FactoryDeck(n), ops, times)[p]
         == CardAt(n, ApplyRepeatsFixed(n, times, Fold(n, Identity, ops).offset, Fold(n, Identity, ops).increment), p)
  {
    RepeatMatchesDeck(n, ops, times);
    RepeatedFoldIterates(n, ops, times, p);
    ApplyRepeatsFixedIterates(n, times, Fold(n, Identity, ops), p);
  }

  /** What the solver's formula gives at position p: p itself when the folded
      increment is 1, and otherwise, for a prime deck size and invertible deal
      increments, the card at position p after `repeats` shuffles. */
  lemma SolverCard(n: int, repeats: nat, ops: seq<Op>, m: Affine, p: int)
    requires n >= 2 && 0 <= p < n && m == Fold(n, Identity, ops)
    ensures m.increment == 1 ==> CardAt(n, ApplyRepeats(n, repeats, m.offset, m.increment), p) == p
    ensures IsPrime(n) && Dealable(n, ops) && m.increment != 1
        ==> CardAt(n, ApplyRepeats(n, repeats, m.offset, m.increment), p) == RepeatShuffle(FactoryDeck(n), ops, repeats)[p]
  {
    assert InRange(n, m);
    if m.increment == 1 {
      ModSmall(1, n);
      ApplyRepeatsUnitIncrement(n, repeats, m.offset, 1);
      ModSmall(p, n);
    }
    if IsPrime(n) && Dealable(n, ops) && m.increment != 1 {
      ModSmall(m.increment, n);
      RepeatedShuffleCard(n, ops, repeats, p);
    }
  }

  /** The solver's final formula reads off the card at a position. */
  lemma ReadCard(n: int, a: Affine, p: int)
    requires n > 0
    ensures (a.offset + p * a.increment) % n == CardAt(n, a, p)
  {
    assert p * a.increment == a.increment * p;
  }

  /** The evaluation of card_at_position_2020 for any deck size, repeat count
      and position: fold the lines, repeat the pair, read off the card. */
  method CardAtPosition(n: int, repeats: nat, operations: seq<Op>, position: int) returns (card: int)
    requires n >= 2 && 0 <= position < n
    ensures 0 <= card < n
    ensures Fold(n, Identity, operations).increment == 1 ==> card == position
    ensures IsPrime(n) && Dealable(n, operations) && Fold(n, Identity, operations).increment != 1
        ==> card == RepeatShuffle(FactoryDeck(n), operations, repeats)[position]
  {
    var offset, increment := CalculateOffsetAndIncrement(n, operations);
    var repeated := ApplyRepeats(n, repeats, offset, increment);
    card := (repeated.offset + position * repeated.increment) % n;
    ReadCard(n, repeated, position);
    SolverCard(n, repeats, operations, Affine(offset, increment), position);
  }

  /** card_at_position_2020, with the lines passed in instead of read from a
      file. For a prime deck size and invertible deal increments the result is
      the card at position 2020 after the shuffle is repeated REPEATS times,
      unless the folded increment is 1; then the result is 2020. */
  method CardAtPosition2020(operations: seq<Op>) returns (card: int)
    ensures 0 <= card < N_CARDS
    ensures Fold(N_CARDS, Identity, operations).increment == 1 ==> card == 2020
    ensures IsPrime(N_CARDS) && Dealable(N_CARDS, operations) && Fold(N_CARDS, Identity, operations).increment != 1
        ==> card == RepeatShuffle(FactoryDeck(N_CARDS), operations, REPEATS)[2020]
  {
    card := CardAtPosition(N_CARDS, REPEATS, operations, 2020);
  }

  /** The evaluation with apply_repeats replaced by ApplyRepeatsFixed: for a
      prime deck size and invertible deal increments it is the card at the
      position after `repeats` shuffles, whatever the folded increment. */
  method CardAtPositionFixed(n: int, repeats: nat, operations: seq<Op>, position: int) returns (card: int)
    requires n >= 2 && 0 <= position < n
    ensures 0 <= card < n
    ensures IsPrime(n) && Dealable(n, operations)
        ==> card == RepeatShuffle(FactoryDeck(n), operations, repeats)[position]
  {
    var offset, increment := CalculateOffsetAndIncrement(n, operations);
    var repeated := ApplyRepeatsFixed(n, repeats, offset, increment);
    card := (repeated.offset + position * repeated.increment) % n;
    ReadCard(n, repeated, position);
    if IsPrime(n) && Dealable(n, operations) {
      RepeatedShuffleCard(n, operations, repeats, position);
    }
  }
}
