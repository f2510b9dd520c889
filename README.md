# Pirate share

A Dafny model of `pirate_share`, the one piece of logic in a short Rust
program about panics. The captain takes half of the booty. The ordinary crew
split the other half in equal shares, rounded down. What does not divide
evenly goes to the ship's parrot. The function halves a `u64` total with
truncating division, then divides that half by the crew size (a `usize` cast
to `u64`), truncating again. A crew size of zero is a division by zero, which
Rust turns into a panic: a programmer error, not a returned value.

The model is `pirates.dfy`, module `Pirates`:

- `U64` and `USize` are natural numbers below 2^64. A 64-bit target is
  assumed, so the cast `crew_size as u64` is the identity.
- `CrewHalf` is the first step (`total / 2`), `PirateShare` the whole
  function, and `ParrotCut` the leftover of the crew's half that the comment
  gives to the parrot.
- The division-by-zero panic is the precondition `crewSize > 0`. Every
  call of `PirateShare` in the model meets it, so no caller of the model can
  reach the panic.
- Every intermediate value is a `U64`, so Dafny checks that no step
  overflows.
- `DealtRounds` is an independent reference definition of an equal share.
  It deals the crew's half out one coin per crew member per round, for as
  long as a whole round can be paid, and does not use division. It is a
  specification of "equal shares, rounded down", not a model of code.
- By definition, the body of `PirateShare` is the formula
  `(total / 2) / crew_size`.

## Model

| member | source | states |
|---|---|---|
| Pirates.CrewHalf | src/main.rs:29 | the crew's half is the total halved and rounded down: twice it is the total or one less |
| Pirates.PirateShare | src/main.rs:27-31 | defined only for a crew of at least one; each member's share times the crew size fits in the crew's half, and one more coin each would not |
| Pirates.ParrotCut | src/main.rs:27 | the parrot's leftover is less than the crew size, and shares plus leftover make up exactly the crew's half |
| Pirates.DealtRoundsRemainder | src/main.rs:27 | dealing one coin per member per round leaves fewer coins than crew members and never pays out more than there is |
| Pirates.ShareIsDealtRounds | src/main.rs:27-30 | the share equals the number of whole rounds that can be dealt from the crew's half |
| Pirates.ShareIsUnique | src/main.rs:27 | the remainder law picks out a single share, so any value meeting it is the share |
| Pirates.ShareIsTotalOverTwiceCrew | src/main.rs:29-30 | halving and then dividing by the crew is the same as dividing the total by twice the crew size |
| Pirates.HalveThenDivide | src/main.rs:29-30 | on naturals, truncating by 2 and then by the crew size equals truncating once by twice the crew size |
| Pirates.ShareAtMostHalf | src/main.rs:27-30 | a share is never more than the crew's half |
| Pirates.ShareFitsInTotal | src/main.rs:28-30 | neither the half nor the share exceeds the total, so both fit in a `u64` |
| Pirates.ShareAntitoneInCrew | src/main.rs:30 | for a fixed total, a bigger crew never gets a bigger share |
| Pirates.ShareMonotoneInTotal | src/main.rs:29-30 | for a fixed crew, a bigger total never gives a smaller share |
| Pirates.NoLootNoShare | src/main.rs:29-30 | a total of 0 or 1 gives every crew member nothing |
| Pirates.SoleCrewTakesHalf | src/main.rs:29-30 | a crew of one gets the whole crew's half |
| Pirates.SampleShares | src/main.rs:27-31 | 100 among 4 gives 12 each with 2 for the parrot, 7 among 3 gives 1 each, 1 among 5 gives nothing |

## Left out

- The `println!("Hello, world!")` in `main` (src/main.rs:2): console output with no logic.
- The panic itself (src/main.rs:30, src/main.rs:33): a crew size of zero is excluded by a precondition rather than modelled as a termination of the thread. Printing the panic message, unwinding and dropping values, thread and process exit, `catch_unwind` and `-C panic=abort` (src/main.rs:33-61) are runtime behaviour of Rust, not logic of this code.
- The width of `usize` on targets other than 64-bit: the cast to `u64` is taken to be lossless.
- Any call from `main`: `pirate_share` is never called there, so there is no end-to-end behaviour to model.
- The captain's cut: the code computes only the crew's half (`total / 2`, rounded down), never the captain's. The model does not define the captain's cut either. For an odd total, what the captain is implicitly left with, `total - total / 2`, is one coin more than the crew's half.
