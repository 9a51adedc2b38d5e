# Slam shuffle solver (Advent of Code 2019, day 22, part 2)

A deck of `N_CARDS = 119315717514047` cards in factory order is shuffled by a list of
lines, each one of three techniques: "deal into new stack", "cut k" and "deal with
increment k". The whole list is applied `REPEATS = 101741582076661` times, and the
program reports which card ends up at position 2020.

The solver never builds the deck. After any prefix of the lines, the card at position
`p` is `(offset + increment * p) mod N_CARDS`, so `calculate_offset_and_increment` folds
every line into the pair `(offset, increment)`. `apply_repeats` raises that affine map
to the power `REPEATS` in closed form: a modular power for the increment and a geometric
series for the offset. Every division is a multiplication by an inverse, and
`inverse_in_modulo` computes that inverse as `x^(N-2) mod N`.

The Dafny project has four modules:

- `ModArith` (`mod_arith.dfy`): powers over the unbounded integers, congruences modulo
  a positive integer, and `ModPow`. `ModPow` is Python's three-argument `pow`, computed by
  square-and-multiply and proved equal to `b^e mod m`.
- `Fermat` (`fermat.dfy`): primes, Euclid's lemma, binomial coefficients, and a full
  proof of Fermat's little theorem for every prime. The proof goes through the binomial
  theorem and `(x + 1)^p == x^p + 1 (mod p)`.
- `Deck` (`deck.dfy`): an independent reference semantics. It works on explicit decks
  (`seq<int>`) and writes each technique card by card: reversal, rotation, and dealing
  onto a table `k` places at a time. It also defines the whole shuffle and the repeated
  shuffle.
- `Shuffle` (`shuffle.dfy`): the solver itself.
  - `CalculateOffsetAndIncrement` is a method with the source's loop, proved equal to a
    left fold `Fold` of `Step`.
  - `InverseInModulo`, `ApplyRepeats`, and the final formula in `CardAtPosition` /
    `CardAtPosition2020`.
  - The lemmas that connect the pair arithmetic to the reference decks. For a prime deck
    size, the pair describes the shuffled deck exactly. The repeated pair is the
    single-shuffle map iterated `REPEATS` times, except in the case reported under
    Findings.

Dafny's `%` with a positive modulus gives the same result as Python's `%`, so every `% n`
in the model is Python's `% N_CARDS`.

The operations take the deck size and the repeat count as parameters (`n`, `repeats`).
This lets their properties be stated for every size. `CardAtPosition2020` passes the
program's constants.

Where a property needs the deck size to be prime, it takes `IsPrime(n)` as a hypothesis.
The primality of the concrete `N_CARDS` is not proved.

## Model

| member | source | states |
|---|---|---|
| Shuffle.CalculateOffsetAndIncrement | day22/lib/day22_part2.py:17-35 | The loop leaves exactly the pair the left fold of the lines gives from (0, 1). Both values lie in [0, n). An empty list gives (0, 1). |
| Shuffle.Step | day22/lib/day22_part2.py:20-34 | One line keeps the pair in [0, n). A cut leaves the increment unchanged, a deal leaves the offset unchanged, and an unknown line changes nothing. |
| Shuffle.Fold | day22/lib/day22_part2.py:18-35 | Folding any list of lines from an in-range pair gives an in-range pair. |
| Shuffle.FoldAppend | day22/lib/day22_part2.py:20-35 | The loop is a left fold: processing ops1 + ops2 is processing ops2 from the pair ops1 leaves. |
| Shuffle.NewStackOrder | day22/lib/day22_part2.py:21-26 | "deal into new stack" negates the increment first and adds the new increment to the offset. The result is offset' = (offset - increment) mod n and increment' = (-increment) mod n. |
| Shuffle.InverseInModulo | day22/lib/day22_part2.py:45-46 | The result is x^(n-2) mod n and lies in [0, n). |
| Shuffle.InverseInModuloIsInverse | day22/lib/day22_part2.py:45-46 | For a prime n that does not divide x, x * inverse_in_modulo(x) == 1 (mod n). |
| Fermat.FermatLittle | day22/lib/day22_part2.py:45-46 | x^(p-1) mod p == 1 for every prime p that does not divide x. This is the theorem that makes x^(N-2) an inverse. |
| ModArith.ModPow | day22/lib/day22_part2.py:38 | Python's pow(b, e, m) by square-and-multiply equals b^e mod m and lies in [0, m). |
| Shuffle.StepComposes | day22/lib/day22_part2.py:21-32 | The pair after a line is the line's own map composed with the previous pair's map: the card at q after the line is the previous card at the position the line moves to q. |
| Shuffle.FoldComposes | day22/lib/day22_part2.py:20-35 | Folding from any pair a composes the map folded from (0, 1) after a's map. |
| Shuffle.OpMatchesDeck | day22/lib/day22_part2.py:21-34 | From (0, 1), the pair after one line names, at each position, the card the technique puts there on a real deck. Deals need a prime n that does not divide the increment. |
| Shuffle.NewStackMatchesDeck | day22/lib/day22_part2.py:21-26 | The "deal into new stack" pair sends position p to n - 1 - p, which is the reversal of the deck. |
| Shuffle.CutMatchesDeck | day22/lib/day22_part2.py:27-29 | The "cut k" pair sends position p to (k mod n + p) mod n, which is the rotation of the deck by k, for negative k too. |
| Shuffle.DealMatchesDeck | day22/lib/day22_part2.py:30-32 | The "deal with increment k" pair sends p to (k^(n-2) * p) mod n. That position holds the card dealt to p when cards are laid k places apart. |
| Shuffle.StepMatchesDeck | day22/lib/day22_part2.py:20-34 | Shuffling the deck a pair describes by one line gives the deck the pair after that line describes. |
| Shuffle.FoldMatchesDeck | day22/lib/day22_part2.py:20-35 | The folded pair describes the deck after the whole list of lines. |
| Shuffle.RepeatMatchesDeck | day22/lib/day22_part2.py:12-13 | Shuffling the factory deck `times` times gives the deck of the fold run `times` times from (0, 1). |
| Shuffle.RepeatedFoldIterates | day22/lib/day22_part2.py:12-13 | The fold run `times` times is the single-shuffle map p -> offset + increment * p iterated `times` times. |
| Shuffle.GeometricClosedForm | day22/lib/day22_part2.py:40 | (1 - x) * (1 + x + ... + x^(c-1)) == 1 - x^c. This is the identity the repeated offset relies on. |
| Shuffle.IterateClosedForm | day22/lib/day22_part2.py:37-43 | Applying (offset, increment) t times sends p to offset * (1 + ... + increment^(t-1)) + increment^t * p, mod n. |
| Shuffle.ApplyRepeats | day22/lib/day22_part2.py:37-43 | Both outputs lie in [0, n), and the repeated increment is increment^repeats mod n. |
| Shuffle.ApplyRepeatsGeometric | day22/lib/day22_part2.py:40-41 | For a prime n and increment not congruent to 1, the repeated offset is offset times the geometric series mod n. It also satisfies (1 - increment) * repeated_offset == offset * (1 - repeated_increment) (mod n). |
| Shuffle.ApplyRepeatsIterates | day22/lib/day22_part2.py:37-43 | For a prime n and increment not congruent to 1, the pair apply_repeats returns is the single-shuffle map applied `repeats` times, at every position. |
| Shuffle.ApplyRepeatsUnitIncrement | day22/lib/day22_part2.py:38-41 | With increment congruent to 1, the inverse of 0 is 0 and apply_repeats returns (0, 1), forgetting the offset. |
| Shuffle.IterateUnitIncrement | day22/lib/day22_part2.py:37-43 | With increment congruent to 1, repeating the map t times adds t * offset. |
| Shuffle.CutOneRepeated | day22/lib/day22_part2.py:38-41 | For the one-line shuffle "cut 1", position p holds card p + times after `times` shuffles, while apply_repeats' pair gives p. |
| Shuffle.CutOneCounterexample | day22/lib/day22_part2.py:15 | At the program's constants, with "cut 1" the true card at 2020 is 101741582078681, and the formula gives 2020. |
| Shuffle.ApplyRepeatsFixed | day22/lib/day22_part2.py:37-43 | apply_repeats with the increment-1 case handled. It agrees with apply_repeats whenever the increment is not 1 mod n, and stays in [0, n). |
| Shuffle.ApplyRepeatsFixedIterates | day22/lib/day22_part2.py:37-43 | For a prime n and every pair, the corrected pair is the single-shuffle map applied `repeats` times. |
| Shuffle.RepeatedShuffleCard | day22/lib/day22_part2.py:11-15 | For a prime n and invertible deals, the card at p after `times` shuffles of the factory deck is the corrected pair's card at p. |
| Shuffle.ReadCard | day22/lib/day22_part2.py:15 | The final formula (offset + p * increment) mod n reads off the card at position p of the pair. |
| Shuffle.SolverCard | day22/lib/day22_part2.py:12-15 | The formula applied to the folded pair gives p when the folded increment is 1. Otherwise, for a prime n and invertible deals, it gives the card at p after `repeats` shuffles. |
| Shuffle.CardAtPosition | day22/lib/day22_part2.py:11-15 | The evaluation (fold, repeat, read off) returns a card in [0, n). It is the card at the position after `repeats` shuffles for a prime n, invertible deals and a folded increment other than 1. With folded increment 1 it returns the position itself. |
| Shuffle.CardAtPosition2020 | day22/lib/day22_part2.py:11-15 | The same at N_CARDS, REPEATS and position 2020. |
| Shuffle.CardAtPositionFixed | day22/lib/day22_part2.py:11-15 | With the corrected apply_repeats, the evaluation is the card at the position after `repeats` shuffles, for a prime n and invertible deals, whatever the folded increment. |

## Left out

- Reading the lines from `lib/advent_input` (`input()`, lines 48-50), the doctest and the
  `__main__` block. These are I/O: `CardAtPosition2020` takes the lines as a parameter.
- Matching lines with regular expressions and parsing their integers (lines 21, 27-31).
  The `Op` datatype stands for a parsed line, and `Unknown` stands for a line that
  matches none of the three patterns.
- The `print("unkown operation")` side effect (line 34). That branch is a no-op on the
  pair, and this is what `Step` states.
- Primality of `N_CARDS` is not proved. Every property that needs it takes `IsPrime(n)`
  as a hypothesis.
- Deck sizes below 2. `inverse_in_modulo` raises to the power `N - 2`, so the operations
  require `n >= 2`.
- "deal with increment k" where n divides k. That deal is not a permutation, so the
  correspondence with real decks (`Dealable`) excludes it.
- Shuffle.CardAtPosition2020: the link to the real deck is stated under the hypothesis
  `IsPrime(N_CARDS)`, because the primality of the 15-digit constant is not proved.

## Findings

| source | as written | input that shows it | evidently intended | confidence | as-written member | corrected member |
|---|---|---|---|---|---|---|
| day22/lib/day22_part2.py:40 | When the folded increment is 1 mod N, `inverse_in_modulo(0)` is 0, so `repeated_offset` is 0 and the answer is 2020 whatever the offset. | The single line "cut 1": the folded pair is (1, 1). The program gives 2020, but after REPEATS shuffles position 2020 holds card 2020 + REPEATS = 101741582078681. | With increment 1 the map is p -> p + offset, so the repeated offset should be offset * REPEATS mod N. | high for the model; not executed | Shuffle.CutOneCounterexample | Shuffle.ApplyRepeatsFixedIterates |
