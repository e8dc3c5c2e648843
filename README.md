# Podcastr player state and duration formatter, in Dafny

This project models the two parts of the Podcastr web front-end that hold logic.

- **The playback-state provider** (`PlayerContextProvider`). It owns the loaded episode list, the index of the current episode and the `isPlaying`, `isLoop` and `isShuffle` flags. The derived `hasPrevious` and `hasNext` are computed from them. The commands are `play`, `playList`, `togglePlay`, `setPlayingState`, `toggleLoop`, `toggleShuffle`, `playNext`, `playPrevious` and `clearPlayerState`.
- **The duration formatter** (`convertDurationToTimeString`). It turns a number of seconds into `HH:MM:SS`.

Layout:

- `player_state.dfy`, module `PlayerState`. The state as a value (`State`), the index invariant `Valid`, the two derived values, one transition function per command, and lemmas that relate the commands.
- `player_context.dfy`, module `PlayerContext`. Class `PlayerContextProvider` has the five fields. Each command is a `modifies this` method. Its postcondition gives the whole new state field by field, and ties it to the matching `PlayerState` transition of the old state. A client method, `StepThroughSession`, drives one object through a session using only those contracts.
- `duration.dfy`, module `DurationFormat`. The hours/minutes/seconds split, the formatter, a parser for its output, and the lemmas about them.
- `strings.dfy`, module `Strings`. The string built-ins the formatter uses: `String(n)` for a non-negative integer, `padStart` and `join`. `String(n)` and `join` have inverses (decimal value, `split`) with round-trip lemmas. `padStart` has no inverse; `ZeroPaddedValue` shows that zero padding keeps a numeral's value.
- `wrappers.dfy`, module `Wrappers`. `Option`.

Modelling choices:

- A React command reads the values of the render it was created in and writes new ones. Each command is therefore modelled as one atomic step from the state before the call.
- `Math.random()` becomes a parameter `random` with `0 <= random < 1`, which is what `Math.random` promises. The shuffle draw is `Floor(random * length)`, taken over exact reals.
- The index invariant is: the index is a position of the list when the list is non-empty, and 0 when the list is empty. Every command keeps it. `playList` keeps it only because its index is required to be a position of the new list.
- The page's own `Episode` type (src/pages/index.tsx:15-24) also has `id`, `publishedAt` and `durationAsString`. The provider's type (src/contexts/PlayerContext.tsx:4-10) has only title, members, thumbnail, duration and url. The model follows the provider.

## Model

| member | source | states |
|---|---|---|
| PlayerState.Valid | src/contexts/PlayerContext.tsx:39-43 | On a valid state the index is a position of the list exactly when the list is non-empty; otherwise it is 0 |
| PlayerState.HasPrevious | src/contexts/PlayerContext.tsx:72 | On a valid state, `hasPrevious` holds exactly when a list is loaded and the current episode is not its first |
| PlayerState.HasNext | src/contexts/PlayerContext.tsx:73 | On a valid state in order, `hasNext` holds exactly when a list is loaded and the current episode is not its last |
| PlayerState.InitialIsValid | src/contexts/PlayerContext.tsx:39-43 | The initial state (empty list, index 0, all flags off) satisfies the index invariant and has neither a previous nor a next episode |
| PlayerState.ShuffleIndex | src/contexts/PlayerContext.tsx:82-84 | `Math.floor(Math.random() * length)` is a position of a non-empty list, and 0 for an empty list |
| PlayerState.ShuffleReachesEveryIndex | src/contexts/PlayerContext.tsx:82-84 | Every position of a non-empty list is the result of some draw in [0, 1) |
| PlayerState.Play | src/contexts/PlayerContext.tsx:45-49 | The state after `play` satisfies the index invariant, whatever the state before |
| PlayerState.TogglePlay | src/contexts/PlayerContext.tsx:51-53 | `togglePlay` preserves the index invariant |
| PlayerState.ToggleLoop | src/contexts/PlayerContext.tsx:55-57 | `toggleLoop` preserves the index invariant |
| PlayerState.ToggleShuffle | src/contexts/PlayerContext.tsx:58-60 | `toggleShuffle` preserves the index invariant |
| PlayerState.SetPlayingState | src/contexts/PlayerContext.tsx:62-64 | `setPlayingState` preserves the index invariant |
| PlayerState.PlayList | src/contexts/PlayerContext.tsx:66-70 | Loading a list at one of its positions yields a state that satisfies the index invariant |
| PlayerState.ClearPlayerState | src/contexts/PlayerContext.tsx:75-78 | The state after `clearPlayerState` satisfies the index invariant |
| PlayerState.PlayNext | src/contexts/PlayerContext.tsx:80-89 | `playNext`, shuffled or in order, preserves the index invariant |
| PlayerState.PlayPrevious | src/contexts/PlayerContext.tsx:90-94 | `playPrevious` preserves the index invariant |
| PlayerState.PlayForgetsPriorState | src/contexts/PlayerContext.tsx:45-49 | `play(e)` gives list `[e]`, index 0 and playing, whatever the previous list and index; two states with the same mode flags end in the same state |
| PlayerState.TogglesAreInvolutions | src/contexts/PlayerContext.tsx:51-60 | Each toggle flips its own flag, and applying it twice restores the state exactly |
| PlayerState.SetPlayingStateIdempotent | src/contexts/PlayerContext.tsx:51-64 | Setting the playing state twice is the same as once; setting the current value changes nothing; `togglePlay` equals setting the opposite value |
| PlayerState.ShuffleAlwaysHasNext | src/contexts/PlayerContext.tsx:73 | While shuffling, `hasNext` holds at every index, the last one included |
| PlayerState.PlayNextInOrder | src/contexts/PlayerContext.tsx:86-88 | Not shuffling: with a next episode the index grows by exactly 1 and nothing else changes; without one, and in particular at the last index, the state is unchanged |
| PlayerState.PlayNextShuffled | src/contexts/PlayerContext.tsx:81-85 | Shuffling: only the index changes, to a position of the list (0 for an empty list), and the current index itself can be drawn again |
| PlayerState.PlayPreviousSteps | src/contexts/PlayerContext.tsx:90-94 | With a previous episode the index drops by exactly 1 and nothing else changes; at index 0 the state is unchanged |
| PlayerState.NextAndPreviousAreInverse | src/contexts/PlayerContext.tsx:80-94 | Not shuffling, on a valid state: previous undoes a next that moved, and next undoes a previous that moved |
| PlayerState.ClearKeepsFlags | src/contexts/PlayerContext.tsx:75-78 | Clearing gives the initial list and index but keeps `isPlaying`, `isLoop` and `isShuffle` as they were |
| PlayerState.StepThroughThreeEpisodes | src/contexts/PlayerContext.tsx:66-89 | After loading `[A, B, C]` at 0 there is no previous and a next; two `playNext` calls reach index 2 with no next; a third leaves it there |
| PlayerState.ClearDoesNotStop | src/contexts/PlayerContext.tsx:66-78 | Clearing after `playList([A, B], 1)` empties the list and resets the index but playback stays on |
| PlayerContext.PlayerContextProvider.constructor | src/contexts/PlayerContext.tsx:39-43 | A new provider has an empty list, index 0 and every flag off, and satisfies the invariant |
| PlayerContext.PlayerContextProvider.HasPrevious | src/contexts/PlayerContext.tsx:72 | Under the invariant, `hasPrevious` holds exactly when a list is loaded and the index is not 0 |
| PlayerContext.PlayerContextProvider.HasNext | src/contexts/PlayerContext.tsx:73 | `hasNext` always holds while shuffling; in order and under the invariant it holds exactly when a list is loaded and the index is not the last |
| PlayerContext.PlayerContextProvider.CurrentEpisode | src/components/Player/index.tsx:10-11 | Reading `episodeList[currentEpisodeIndex]` gives an episode only for an in-range index, and then the element at that index; under the index invariant an episode is present exactly when the list is non-empty |
| PlayerContext.PlayerContextProvider.Play | src/contexts/PlayerContext.tsx:45-49 | New list `[episode]`, index 0, playing; loop and shuffle unchanged; the invariant is kept |
| PlayerContext.PlayerContextProvider.TogglePlay | src/contexts/PlayerContext.tsx:51-53 | `isPlaying` is negated and every other field is unchanged |
| PlayerContext.PlayerContextProvider.ToggleLoop | src/contexts/PlayerContext.tsx:55-57 | `isLoop` is negated and every other field is unchanged |
| PlayerContext.PlayerContextProvider.ToggleShuffle | src/contexts/PlayerContext.tsx:58-60 | `isShuffle` is negated and every other field is unchanged |
| PlayerContext.PlayerContextProvider.SetPlayingState | src/contexts/PlayerContext.tsx:62-64 | `isPlaying` becomes the given value and every other field is unchanged |
| PlayerContext.PlayerContextProvider.PlayList | src/contexts/PlayerContext.tsx:66-70 | The list and index become the given ones, playing is on, loop and shuffle are unchanged, the invariant is kept |
| PlayerContext.PlayerContextProvider.ClearPlayerState | src/contexts/PlayerContext.tsx:75-78 | Empty list and index 0; `isPlaying`, `isLoop` and `isShuffle` keep their values |
| PlayerContext.PlayerContextProvider.PlayNext | src/contexts/PlayerContext.tsx:80-89 | Shuffling: the index becomes the draw. Otherwise it grows by 1 when `hasNext` held and is unchanged when it did not. List and flags never change; the invariant is kept |
| PlayerContext.PlayerContextProvider.PlayPrevious | src/contexts/PlayerContext.tsx:90-94 | The index drops by 1 when `hasPrevious` held and is unchanged otherwise; list and flags never change; the invariant is kept |
| Strings.ToDecimal | src/utils/convertDurationToTimeString.ts:7 | `String(unit)` is a non-empty string of digits that starts with '0' exactly for zero |
| Strings.DecimalRoundTrip | src/utils/convertDurationToTimeString.ts:7 | Reading the numeral `String(n)` back gives `n` |
| Strings.CanonicalNumeral | src/utils/convertDurationToTimeString.ts:7 | Every digit string without leading zeros is `String` of its value, so the rendering is the unique canonical one |
| Strings.DecimalLength | src/utils/convertDurationToTimeString.ts:7 | `String(n)` has one digit below 10, two from 10 to 99, and at least three from 100 |
| Strings.PadStart | src/utils/convertDurationToTimeString.ts:7 | `padStart` yields the larger of the width and the input length, ends with the input, and fills the front with the pad character; it never truncates |
| Strings.ZeroPaddedValue | src/utils/convertDurationToTimeString.ts:7 | Zero-padding a numeral keeps it a numeral of the same value |
| Strings.Join | src/utils/convertDurationToTimeString.ts:8 | Joining no parts gives the empty string |
| Strings.JoinEnds | src/utils/convertDurationToTimeString.ts:8 | A join of one or more parts starts with the first part and ends with the last one |
| Strings.JoinThree | src/utils/convertDurationToTimeString.ts:6-8 | Joining three parts puts the separator between neighbours, in order |
| Strings.SplitJoin | src/utils/convertDurationToTimeString.ts:8 | Splitting a join of separator-free parts gives the parts back |
| Strings.JoinSplit | src/utils/convertDurationToTimeString.ts:8 | Joining the parts of a split with the same separator rebuilds the string |
| DurationFormat.Hours | src/utils/convertDurationToTimeString.ts:2 | `hours` is the largest whole number of hours that fits in the duration: `hours*3600 <= duration < hours*3600 + 3600` |
| DurationFormat.Minutes | src/utils/convertDurationToTimeString.ts:3 | `minutes` is below 60 and is the largest whole number of minutes that fits in `duration % 3600` |
| DurationFormat.Seconds | src/utils/convertDurationToTimeString.ts:4 | `seconds` is below 60, at most the duration, and what is left of it is a whole number of minutes |
| DurationFormat.Field | src/utils/convertDurationToTimeString.ts:7 | `String(unit).padStart(2, '0')` has at least two characters |
| DurationFormat.FieldsOf | src/utils/convertDurationToTimeString.ts:6-7 | One field per unit, in order: the i-th field is `Field` of the i-th unit |
| DurationFormat.ConvertDurationToTimeString | src/utils/convertDurationToTimeString.ts:1-11 | The output has at least 8 characters, with ':' at the sixth and third positions from the end, before the two-character minutes and seconds |
| DurationFormat.DurationDecomposition | src/utils/convertDurationToTimeString.ts:2-4 | `hours*3600 + minutes*60 + seconds == duration`, with minutes and seconds below 60 |
| DurationFormat.DecompositionUnique | src/utils/convertDurationToTimeString.ts:2-4 | Any split with minutes and seconds below 60 equals the one the formatter computes |
| DurationFormat.FieldShape | src/utils/convertDurationToTimeString.ts:7 | A field is a numeral of its unit with at least 2 characters: exactly 2 below 100, and from 100 up the full uncut numeral (3 or more digits) |
| DurationFormat.TimeStringLayout | src/utils/convertDurationToTimeString.ts:6-8 | The output is the hours, minutes and seconds fields in that order with two ':' between them |
| DurationFormat.TimeStringFields | src/utils/convertDurationToTimeString.ts:6-8 | Splitting the output at ':' gives exactly the three fields: no field contains ':' |
| DurationFormat.ParseOutput | src/utils/convertDurationToTimeString.ts:2-8 | Parsing the output reads back `hours*3600 + minutes*60 + seconds` of the units the formatter computed |
| DurationFormat.ShortDurationShape | src/utils/convertDurationToTimeString.ts:2-8 | The output is 8 characters long exactly when the duration is below 360000 s; then ':' is at positions 2 and 5 and every other character is a digit |
| DurationFormat.TimeStringRoundTrip | src/utils/convertDurationToTimeString.ts:2-8 | Parsing the three fields of the output and computing `h*3600 + m*60 + s` gives the duration back |

## Left out

- PlayerContext.PlayerContextProvider.PlayList: requires `index < |list|`, so the list is non-empty. The source does not check the index. Both callers pass a position of the list they load: src/pages/index.tsx:64 passes an index into the latest episodes, which lead the loaded list, and src/pages/index.tsx:111 passes that index offset by the number of latest episodes. An out-of-range index would break the index invariant, so it is excluded rather than modelled.
- PlayerState.PlayList: carries the same precondition, for the same reason.
- PlayerState.ShuffleIndex: `random` and the product `random * length` are exact reals. The model does not capture floating-point rounding in `Math.random() * episodeList.length`.
- The uniform distribution of the shuffle draw is not modelled. The model says only which indices are possible: all of them, the current one included.
- React plumbing is not modelled: `createContext`, `useContext`/`usePlayer`, the `Provider` element and re-render batching of the state setters. Each command is one atomic step.
- The page data loading `getStaticProps` (src/pages/index.tsx) is not modelled. It is an HTTP fetch plus date formatting, which is I/O and calls into libraries.
- The rendering in `Home` (src/pages/index.tsx), `Player` (src/components/Player/index.tsx) and `_app` (src/pages/_app.tsx) is not modelled. It is JSX with no logic beyond reading the state. The one read, the current episode, is `CurrentEpisode`.
- src/contexts/PlayerContext.ts is not modelled. It is an older, type-only context declaration with no behaviour.
- Negative and fractional durations are out of scope. On those, JavaScript's `Math.floor` and `%` work on floating-point numbers. Durations here are `nat`.
- Durations are unbounded integers. JavaScript numbers are doubles, exact only below 2^53, so `Math.floor(duration / 3600)` and `%` on larger durations can round; the model does not capture that.
- Strings.PadStart: the fill is a single character. The source uses only `'0'`, so `padStart`'s truncation of longer fill strings is not modelled.
- Strings.ToDecimal: covers `String` on non-negative integers only. Exponent notation for very large numbers is not modelled.
- Strings.Join: its own contract states only that no parts join to the empty string. Where a join starts and ends is stated by JoinEnds, the three-part layout by JoinThree, and the inverse by SplitJoin and JoinSplit.
