# Secret Santa pairing, modelled in Dafny

This project models the pairing logic of a small Secret Santa web app, in two parts:

- **The utility `generateSecretSantaAssignments`** (`src/utils/secretSanta.ts`). It copies the participant list into a `receivers` array and shuffles that array with Fisher-Yates. It then makes one forward pass over the array: whenever `receivers[i]` has the same id as `participants[i]`, it swaps `receivers[i]` with `receivers[(i+1) % N]`. It pushes `{giver, receiver, isRevealed: false}` for each index as the pass goes.
- **The React hook `useSecretSanta`** (`src/hooks/useSecretSanta.ts`). Its state is `participants`, `assignments` and `isGenerated`, and its operations are:
  - add a participant;
  - remove a participant by id;
  - generate the assignments, using its own copy of the shuffle and pass and building the list *after* the pass;
  - reveal one assignment;
  - reset everything.

Module `SecretSanta` (`SecretSanta.dfy`) holds the records, the shuffle, the pass and both ways of building assignments.

- **Randomness is a parameter.** `js[i]` is the index the shuffle draws at step `i`, so `0 <= js[i] <= i` (`ValidDraws`).
- **The imperative loops stay imperative.** `ShuffleInPlace`, `FixSelfMatches` and `FixAndRecord` are `while` loops over an `array`. Each is proved equal to a recursive specification: `Shuffle`, `Pass` and `PushedFrom`.
- **The main result.** `FixPassDeranges` shows that, with distinct ids and N ≥ 2, the pass turns *any* permutation into a derangement. A derangement is a permutation in which nobody gets themselves.

Module `UseSecretSanta` (`UseSecretSanta.dfy`) models the hook as class `SecretSantaHook`. The class has the three state fields and an invariant `Valid()`:

- ids are distinct;
- there are no assignments until a draw succeeds;
- a successful draw is a derangement of at least two people.

The `filter` used by remove and the `map` used by reveal are pure functions with their own lemmas. Every database call becomes a parameter carrying its outcome: the row an insert returns (`None` on error), or a success flag. When a call fails, the `catch` path leaves the state as it was.

## Model

| member | source | states |
|---|---|---|
| SecretSanta.Swap | src/utils/secretSanta.ts:26 | exchanges two entries and leaves every other index as it was |
| SecretSanta.ShuffleDown | src/utils/secretSanta.ts:24-27 | the shuffle steps `i, i-1, ..., 1`, each swapping index `i` with the drawn `js[i]`; the length is kept |
| SecretSanta.Shuffle | src/utils/secretSanta.ts:20-27 | the receiver order after the whole shuffle of a copy of the participants; the length is kept |
| SecretSanta.ShuffleInPlace | src/utils/secretSanta.ts:23-27 | the in-place Fisher-Yates loop leaves exactly `Shuffle(old receivers, js)` in the array |
| SecretSanta.ShufflePermutes | src/utils/secretSanta.ts:19-27 | the shuffle only swaps `receivers[i]` with `receivers[j]`, `0 <= j <= i`, so the result is a permutation of the participants |
| SecretSanta.ShuffleDownPermutes | src/utils/secretSanta.ts:24-27 | each remaining run of shuffle steps preserves the multiset of entries |
| SecretSanta.SwapPermutes | src/utils/secretSanta.ts:26 | exchanging two entries preserves the multiset |
| SecretSanta.SwapKeepsDistinct | src/utils/secretSanta.ts:36 | exchanging two entries keeps ids distinct |
| SecretSanta.NextIndex | src/utils/secretSanta.ts:35 | `(i + 1) % N`: the next index, wrapping to 0 after `N-1` |
| SecretSanta.FixStep | src/utils/secretSanta.ts:31-37 | step `i` of the pass: a self-match at `i` is swapped with the next index; otherwise nothing changes |
| SecretSanta.Pass | src/utils/secretSanta.ts:30-37 | steps `i..j-1` of the pass applied in order; `Pass(ps, s, 0, N)` is the whole pass |
| SecretSanta.FixSelfMatches | src/hooks/useSecretSanta.ts:107-113 | the in-place pass leaves exactly `Pass(ps, old receivers, 0, N)` in the array |
| SecretSanta.PassPermutes | src/utils/secretSanta.ts:30-37 | the pass only swaps index `i` with `(i+1) % N`, so `receivers` stays a permutation |
| SecretSanta.PassSplit | src/utils/secretSanta.ts:30 | running steps `i..j-1` and then `j..k-1` is running steps `i..k-1` |
| SecretSanta.PassKeepsSettled | src/utils/secretSanta.ts:34-36 | once step `k >= 1` is done, `receivers[k]` is never touched again |
| SecretSanta.PassKeepsFirst | src/utils/secretSanta.ts:35-36 | steps `1..N-2` never touch `receivers[0]`; only the wrap step at `N-1` can |
| SecretSanta.StepClears | src/utils/secretSanta.ts:34-36 | with distinct ids, after step `i` index `i` no longer holds someone with `participants[i]`'s id |
| SecretSanta.PassInvariant | src/utils/secretSanta.ts:30-37 | the pass's invariant for the real pass: after steps `0..i-1` ids are still distinct and no index `k < i` holds someone with `participants[k]`'s id |
| SecretSanta.PassClears | src/utils/secretSanta.ts:30-37 | from any state where the first `i` indices are already clear, the remaining steps `i..N-1` end with nobody holding their own id |
| SecretSanta.PermutationKeepsDistinct | src/utils/secretSanta.ts:20 | a permutation of a list with distinct ids has distinct ids |
| SecretSanta.AtMostOnce | src/utils/secretSanta.ts:2-6 | with distinct ids every record occurs at most once |
| SecretSanta.FixPassDeranges | src/hooks/useSecretSanta.ts:107-113 | given distinct ids and N >= 2, the pass turns any permutation into a derangement: a permutation with no self-match |
| SecretSanta.Drawn | src/hooks/useSecretSanta.ts:101-113 | the final receiver order for given draws: the shuffle followed by the whole pass |
| SecretSanta.DrawnIsDerangement | src/hooks/useSecretSanta.ts:100-113 | the shuffle followed by the pass gives a derangement for every choice of draws |
| SecretSanta.BuildAssignments | src/hooks/useSecretSanta.ts:154-158 | the built list has `participants` as givers and `receivers` as receivers, index for index, all unrevealed |
| SecretSanta.PushedFrom | src/utils/secretSanta.ts:30-44 | what the utility's loop pushes from step `i` on: after each step `k`, the pair (`participants[k]`, `receivers[k]` as it then stands), unrevealed |
| SecretSanta.PushedFromGivers | src/utils/secretSanta.ts:30-44 | the utility records exactly N assignments; assignment `i` has giver `participants[i]` and is unrevealed |
| SecretSanta.PushedFromTail | src/utils/secretSanta.ts:30-44 | for `k >= 1`, assignment `k`'s receiver is the final `receivers[k]` |
| SecretSanta.AsWrittenReceivers | src/utils/secretSanta.ts:30-44 | the utility's receivers are the final order, except that assignment 0 keeps `receivers[0]` as it was right after step 0 |
| SecretSanta.LastStep | src/utils/secretSanta.ts:34-36 | `receivers[0]` is unchanged from step 0 until the last step, and the last step is the wrap swap exactly when `WrapFires` |
| SecretSanta.AsWrittenWithoutWrap | src/utils/secretSanta.ts:30-44 | when the wrap swap does not fire, the utility records exactly the final receiver order |
| SecretSanta.AsWrittenNoSelfMatch | src/utils/secretSanta.ts:33-43 | with distinct ids, no assignment the utility returns has `giver.id == receiver.id`, whatever the draws |
| SecretSanta.NoWrapForTwo | src/utils/secretSanta.ts:30-37 | with two participants the wrap swap never fires |
| SecretSanta.AsWrittenWhenWrapFires | src/utils/secretSanta.ts:30-44 | when the wrap swap fires: N >= 3, assignments 0 and N-1 share a receiver, and `participants[N-1]` receives from nobody |
| SecretSanta.AsWrittenBijectiveIffNoWrap | src/utils/secretSanta.ts:30-44 | the utility's receivers are a permutation of the participants if and only if the wrap swap does not fire |
| SecretSanta.AsWrittenCounterexample | src/utils/secretSanta.ts:24-44 | for `[A, B, C]` with draws giving `[B, A, C]`, the utility returns receivers `[B, A, B]` |
| SecretSanta.FixAndRecord | src/utils/secretSanta.ts:30-44 | the utility's loop yields exactly `PushedFrom(ps, old receivers, 0)` and leaves `Pass(ps, old receivers, 0, N)` in the array |
| SecretSanta.GenerateAssignmentsAsWritten | src/utils/secretSanta.ts:14-47 | fewer than 2 participants is an error with the source's message; otherwise N assignments with givers in order, all unrevealed, no self-match given distinct ids |
| SecretSanta.GenerateAssignments | src/utils/secretSanta.ts:14-47 | the corrected utility: as above, and in addition the receivers are a permutation of the participants |
| UseSecretSanta.WithoutId | src/hooks/useSecretSanta.ts:65 | the entries whose id differs from `id`, in their original order; never longer than the input |
| UseSecretSanta.WithoutIdMembers | src/hooks/useSecretSanta.ts:65 | exactly the participants with another id survive the filter |
| UseSecretSanta.WithoutIdAppend | src/hooks/useSecretSanta.ts:65 | the filter works entry by entry, so the survivors keep their order |
| UseSecretSanta.WithoutIdAbsent | src/hooks/useSecretSanta.ts:65 | removing an id nobody has changes nothing |
| UseSecretSanta.RemoveMiddle | src/hooks/useSecretSanta.ts:65 | removing the id of one entry whose neighbours keep their ids drops only that entry |
| UseSecretSanta.RemovesExactlyOne | src/hooks/useSecretSanta.ts:65 | with distinct ids, removing an entry's id drops exactly that entry and keeps the others in order |
| UseSecretSanta.WithoutIdKeepsDistinct | src/hooks/useSecretSanta.ts:65 | the filter keeps ids distinct |
| UseSecretSanta.Reveal | src/hooks/useSecretSanta.ts:174-180 | same length and same givers and receivers; entry `k` is revealed iff `k == index` or it already was |
| UseSecretSanta.RevealIdempotent | src/hooks/useSecretSanta.ts:174-180 | revealing the same index twice is revealing it once |
| UseSecretSanta.RevealOutOfRange | src/hooks/useSecretSanta.ts:174-180 | an index outside the list leaves it unchanged; no error is raised |
| UseSecretSanta.RevealCommutes | src/hooks/useSecretSanta.ts:174-180 | reveals at two indices commute |
| UseSecretSanta.RevealKeepsDerangement | src/hooks/useSecretSanta.ts:174-180 | revealing never changes who gives to whom |
| UseSecretSanta.Rows | src/hooks/useSecretSanta.ts:116-120 | one row per index: the event id, the giver's id and the receiver's id at that index |
| UseSecretSanta.EmailPairs | src/hooks/useSecretSanta.ts:132-135 | one pair per index: the giver and the receiver at that index |
| UseSecretSanta.SamePairsEverywhere | src/hooks/useSecretSanta.ts:116-158 | the saved rows, the e-mailed pairs and the shown assignments pair the same giver with the same receiver at every index, under one event id |
| UseSecretSanta.GeneratedIsDerangement | src/hooks/useSecretSanta.ts:100-158 | with distinct ids and N >= 2, the hook's assignments have `participants` as givers and are a derangement |
| UseSecretSanta.SecretSantaHook.constructor | src/hooks/useSecretSanta.ts:19-21 | the state starts empty and not generated |
| UseSecretSanta.SecretSantaHook.AddParticipant | src/hooks/useSecretSanta.ts:25-54 | on success the returned row is appended at the end and nothing else changes; on error nothing changes |
| UseSecretSanta.SecretSantaHook.RemoveParticipant | src/hooks/useSecretSanta.ts:56-76 | on success the entries with that id are filtered out and the draw is discarded; on error nothing changes |
| UseSecretSanta.SecretSantaHook.GenerateAssignments | src/hooks/useSecretSanta.ts:78-172 | covers the guard, event failure, insert failure and success paths; see the note below |
| UseSecretSanta.SecretSantaHook.RevealAssignment | src/hooks/useSecretSanta.ts:174-180 | `assignments` becomes `Reveal(old assignments, index)`; the other fields are unchanged |
| UseSecretSanta.SecretSantaHook.ResetAll | src/hooks/useSecretSanta.ts:182-207 | on success everything is emptied and `isGenerated` is false; on error nothing changes |

Proof helpers without a row: these are sequence identities or one-step unfoldings, with no source lines of their own.
- `SecretSanta.TwiceCounted`: a multiset fact.
- `SecretSanta.GiversCons` and `SecretSanta.ReceiversCons`: how `Givers` and `Receivers` split over a list with one element put in front.
- `SecretSanta.RecordedCons` and `SecretSanta.RecordedFirst`: facts about putting one receiver in front of a list.
- `SecretSanta.PushedStep`: one unfolding of `PushedFrom`.
- `SecretSanta.RecordStep`: one loop iteration of `FixAndRecord`.
- `UseSecretSanta.SameAssignments`: two lists that agree field by field are equal.

`SecretSantaHook.GenerateAssignments` in detail:
- **Fewer than 2 participants, or the event insert fails:** nothing changes and nothing is sent.
- **The rows insert fails:** the rows from the shuffle and pass were sent, but the state stays unchanged.
- **Success:** the same pairs are e-mailed, `assignments` becomes `BuildAssignments(participants, Drawn(...))` and `isGenerated` is set.
- **In every case:** `Valid()` is kept and `participants` is untouched.

## Left out

- **Supabase I/O:** the inserts, deletes and selects, and the `send-secret-santa-emails` invoke. They become parameters carrying their outcome. The e-mail function's own handler and template are not part of this model.
- **The e-mail error:** it changes no state, only a toast, so it is not a parameter. `emailed` is the list of pairs in the request body; the `eventId` that goes with it is not repeated in the output.
- **UI and async plumbing:** toasts, `console.error`, the `isLoading` flag and async sequencing.
- **`Math.random()`:** replaced by the injected draws `js`. Whether the shuffle is uniform is a probabilistic property and is not modelled.
- **`createParticipant`** (src/utils/secretSanta.ts:49-53): it builds a random id from a float. The model takes ids as given and requires them to be distinct where the results need it.
- **SecretSantaHook.AddParticipant:** requires the id of the returned row to be fresh. In the app the database's primary key guarantees this; the hook itself does not check it.
- **Two copies of the shuffle:** the hook's inline copy of the shuffle and pass (src/hooks/useSecretSanta.ts:100-113) is the same algorithm as the utility's. The shuffle is one loop, `ShuffleInPlace`, which both call. The pass is written as a loop twice: `FixSelfMatches`, used by the hook and the corrected utility, and `FixAndRecord`, which adds the utility's push inside the loop. Both loops are proved equal to the one function `Pass`.
- **SecretSantaHook.RevealAssignment:** follows the code. An out-of-range index is silently ignored, and `RevealOutOfRange` proves the list unchanged.
- **Participant email:** the utility's email is optional and the hook's is required. Both are modelled by one record with `email: Option<string>`.

## Findings

| source | as written | input that shows it | evidently intended | confidence | as-written member | corrected member |
|---|---|---|---|---|---|---|
| src/utils/secretSanta.ts:30-44 | each assignment is pushed inside the pass, so assignment 0 records `receivers[0]` before the wrap swap at `i = N-1` can replace it | participants `[A, B, C]`, shuffle `[B, A, C]` (draw 2 at i = 2, 0 at i = 1): the wrap swap fires and the result is A→B, B→A, C→B; B receives twice and C receives nothing | build the assignments after the pass, as the hook does (src/hooks/useSecretSanta.ts:154-158), so the receivers form a permutation | not executed | SecretSanta.GenerateAssignmentsAsWritten (with AsWrittenCounterexample, AsWrittenWhenWrapFires, AsWrittenBijectiveIffNoWrap) | SecretSanta.GenerateAssignments (with FixPassDeranges, DrawnIsDerangement) |
