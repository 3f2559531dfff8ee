# Creature lifecycle of the `Something` page

This Dafny project models the behaviour of the `Something` page component: a page that
spawns creature images at random positions and periodically moves each one. Each move
timer may instead make its creature explode. An explosion does four things:

- it records the creature once in an "exploded" set;
- it appends the creature's name and survival time to a leaderboard;
- it cancels the creature's move timer;
- it sets a 600 ms timer that removes the creature from the list.

When the list becomes empty, the `allPokemonDead` flag is raised. Reset fetches a fresh
population, clears the leaderboard, the exploded set and the move timers, and lowers both
flags; it keeps the session start time and lets pending removal timers fire. Showing the leaderboard sorts it by non-increasing
time.

The model is sequential:

- Every timer firing (a move timer, a removal timer) and every button press is an explicit
  method call on the class `Lifecycle.Something`.
- Each `Math.random()` result is an argument of type `Draw`, an integer `d` in
  `[0, 1000)` that stands for the fraction `d / 1000`.
- Each `Date.now()` reading is an integer argument in milliseconds.
- Each catalogue lookup outcome is an argument of type `Fetch`: `Failed`, or `Loaded` with
  the name, the fresh id and the two position draws.

Modules:

- `Creatures`: the creature record, the bounding box, draws and coordinates, and the list
  operations (`findIndex`, filter by id).
- `Leaderboard`: the record type and the stable sort used for display.
- `Population`: the fetch loop shared by mounting and reset.
- `Lifecycle`: the state machine class `Something`, the move-delay draw and the timers the
  start effect schedules.

The class invariant `Something.Valid` holds after every operation. It states:

- the timer map is empty whenever the session is not running;
- `allPokemonDead` is raised only while the creature list is empty;
- every stored delay lies in `[MIN_DELAY, MAX_DELAY)`;
- every creature lies inside the bounding box;
- every exploding creature has its id in the exploded set and has a removal timer pending;
- a ghost log of the ids that have exploded is free of repetitions, has exactly the
  exploded set as its elements, and is as long as the leaderboard.

So between resets no id contributes more than one leaderboard record.

Some behaviours of the code that a reader may not expect, which the model keeps:

- There is no separate stop button. `isRunning` is lowered only by reset (line 175), and
  that runs the effect branch that clears the timer map (lines 67-71).
- The start button does not clear the leaderboard. Only reset does.
- A move step does not check `isExploding`. Were a move timer to fire for an exploding
  creature, whose id is already in the exploded set, it would reposition it and schedule
  another move; since the explosion cancels that creature's move timer, this does not
  happen in a sequential run.
- `allPokemonDead` is raised whenever a removal empties the list, whether or not the session
  runs. It is never lowered except by reset.
- The leaderboard is not ranked on every change. It is sorted in place when it is displayed
  (line 198). JavaScript's sort is stable, so equal times keep their insertion order.

## Model

| member | source | states |
|---|---|---|
| Creatures.Offset | src/components/Something.js:91-92 | `Math.random() * extent` as an integer offset: in `[0, extent)` for a positive extent, in `[extent, 0]` otherwise |
| Creatures.Coordinate | src/components/Something.js:91-92 | a new coordinate `origin + random * extent` lies in `[origin, origin + extent)` when the extent is positive |
| Creatures.IndexOf | src/components/Something.js:84 | `findIndex`: -1 exactly when no entry has the id; otherwise an index whose entry has the id and before which no entry has it |
| Creatures.FindIndex | src/components/Something.js:84-88 | the search loop returns exactly the `findIndex` result |
| Creatures.WithoutMembers | src/components/Something.js:122 | the filter keeps exactly the entries whose id differs, so no entry with the id survives |
| Creatures.WithoutAppend | src/components/Something.js:122 | the filter keeps survivors in their original order: it distributes over concatenation |
| Creatures.WithoutAbsent | src/components/Something.js:122 | removing an id that is not in the list leaves the list unchanged |
| Creatures.WithoutEmpty | src/components/Something.js:122-126 | the remaining list is empty exactly when every entry carried the removed id |
| Creatures.WithoutIdempotent | src/components/Something.js:122 | removing the same id a second time changes nothing |
| Creatures.WithoutLength | src/components/Something.js:122 | the list shrinks by exactly the number of entries carrying the id |
| Leaderboard.SortedNonIncreasing | src/components/Something.js:198 | the displayed leaderboard is ordered by non-increasing time and has the stored length |
| Leaderboard.SortPermutes | src/components/Something.js:198 | the displayed leaderboard is a permutation of the stored records |
| Leaderboard.SortStable | src/components/Something.js:198 | the sort is stable: records with equal time keep their relative order |
| Leaderboard.SortIdempotent | src/components/Something.js:198 | sorting an already sorted leaderboard again leaves it unchanged |
| Population.Spawn | src/components/Something.js:40-47 | a new entry carries the fetched name, the fresh id and its catalogue number, is not exploding and lies inside the box |
| Population.PopulateExactly | src/components/Something.js:36-52 | every entry comes from a successful lookup of its own catalogue number, numbers strictly increase along the list, and no successful lookup is skipped |
| Population.PopulateFresh | src/components/Something.js:40-47 | every entry of a new population is not exploding and lies inside the box |
| Population.FetchAll | src/components/Something.js:157-173 | the loop over catalogue numbers `1 .. numberOfPokemon - 1` builds exactly the population of the lookup outcomes |
| Population.PartialFailure | src/components/Something.js:36-50 | when lookups 2 and 4 of 1..4 fail, exactly numbers 1 and 3 are created, in that order |
| Lifecycle.NextDelay | src/components/Something.js:77 | the drawn move delay lies in `[MIN_DELAY, MAX_DELAY)` |
| Lifecycle.Scheduled | src/components/Something.js:61-64 | the start effect stores a timer for exactly the ids in the list, each with a delay in `[MIN_DELAY, MAX_DELAY)` |
| Lifecycle.ScheduledOwnDelay | src/components/Something.js:61-64 | with distinct ids, each entry's timer carries the delay drawn for that entry |
| Lifecycle.DistinctCardinality | src/components/Something.js:96-98 | a repetition-free log of exploded ids has as many ids as entries |
| Lifecycle.Something.constructor | src/components/Something.js:32-54 | mounting builds the fetched population with empty leaderboard, exploded set and timer map, both flags false |
| Lifecycle.Something.LeaderboardSize | src/components/Something.js:96-137 | the leaderboard has exactly as many records as there are exploded ids |
| Lifecycle.Something.ScheduleNextMove | src/components/Something.js:75-79 | does nothing when not running, otherwise stores a timer for the id with a delay in `[MIN_DELAY, MAX_DELAY)` |
| Lifecycle.Something.Start | src/components/Something.js:57-66 | from a stopped session: running, start time taken, and one timer per creature; from a running one: no change |
| Lifecycle.Something.Stop | src/components/Something.js:67-71 | lowering `isRunning` leaves the timer map empty, so no move step can fire until the next start |
| Lifecycle.Something.MovePokemon | src/components/Something.js:82-151 | unknown id: no state changes. Explosion (draw below the chance, id not yet exploded): only `isExploding` of that entry changes; the id joins the set; one record with the creature's name and `now - startTime` is appended; only that id's timer is dropped; its removal timer is set. Otherwise: only `top`/`left` of that entry change, to values inside the box, and the next move is scheduled |
| Lifecycle.Something.RemovePokemon | src/components/Something.js:120-128 | the list becomes the filtered list; `allPokemonDead` is raised when it is empty and otherwise keeps its value, so afterwards it holds exactly when the list is empty |
| Lifecycle.Something.ResetPokemon | src/components/Something.js:154-178 | a fresh population; leaderboard, exploded set and timer map empty; both flags false |
| Lifecycle.Something.ShowLeaderboard | src/components/Something.js:198 | the stored leaderboard is replaced by its stable sort: non-increasing by time, and a permutation of the old records |

## Left out

- React machinery: state batching, re-rendering, the JSX tree and `pokemonRefs`. State
  is plain fields, and each effect or updater runs as part of the method that triggers it.
- The stale closure of `isRunning` inside timer callbacks (line 76). `ScheduleNextMove`
  reads the current flag, which is the intended guard.
- Asynchrony of population: the awaits between lookups (lines 36-52, 157-172) are not
  interleaved with timer firings. A population is built in one call.
- Network and assets. The PokeAPI lookup and `response.json()` become the `Fetch` argument.
  Sprite, explosion and audio URLs and playback are not modelled. The sprite URL is
  represented by the catalogue number it is built from.
- Only a pending move timer can fire: `MovePokemon` requires a timer entry for the id, as
  `clearTimeout` (lines 69 and 110) keeps a cancelled callback from running. So every move
  step happens while the session runs.
- Real timers and the clock. `setTimeout`/`clearTimeout` handles are represented by the
  stored delay, and the 600 ms removal delay by the set `pendingRemovals`.
  `RemovePokemon` requires that the id has a removal timer pending, since only that timer
  calls it. Reset does not cancel pending removal timers, matching the code.
- Floating point: draws are integers in `[0, 1000)`, coordinates are integers, and
  times are integer milliseconds.
- The leaderboard time is kept as the integer millisecond difference `now - startTime`.
  The code divides it by 1000 and formats it with `toFixed(2)` (line 135).
  The comparison `b.time - a.time` (line 198) is therefore modelled as an integer comparison.
  Records whose times round to the same hundredth of a second tie in the code and keep their
  insertion order there, but the model orders them by the exact milliseconds, so they can
  appear in a different order.
  The initial `startTime` of `null` is modelled as 0, the number `null` coerces to.
- The window size is fixed for the component's lifetime (the `box` constant). A resize,
  which changes `boundingBox` for later draws and can leave creatures outside it, is not
  modelled.
- `uuidv4()`: ids are supplied inside each `Loaded` lookup outcome.
  `ScheduledOwnDelay` assumes distinct ids.
- `Start` takes one move-delay draw per creature, so it requires as many draws as creatures.
- The Reset button is shown only when `allPokemonDead` holds (line 190). `ResetPokemon`
  does not require it, because the reset function itself does not check it.
- The show/hide leaderboard toggle (line 192) and the close button are presentation only.
  `ShowLeaderboard` models the in-place sort that rendering the leaderboard performs.
- `src/components/Home.js` (interval-driven direct DOM writes) is not part of this model. The
  same holds for the presentation-only `src/App.js`, `src/components/NavBar.js`,
  `src/components/Leaderboard.js` and `src/components/PlayerOptions.js`.
