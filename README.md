# Wedding gallery: verified model of its sequential logic

The wedding gallery is a single-page photo wall. It lists photos from a
spreadsheet-backed script endpoint, lets guests upload a photo with a
caption, and floats the guests' captions ("wishes") across the screen as
"danmaku" bullets. Almost all of `App.jsx` is rendering and network glue.
This project models the three pieces of it that are plain sequential logic,
and proves what they promise:

- `shuffleArray`: the in-place Durstenfeld form of the Fisher–Yates
  shuffle (Knuth, *The Art of Computer Programming*, Vol. 2, section 3.4.2,
  Algorithm P). It is applied to the photo list after each successful
  listing.
- The floating-wishes overlay (`DanmakuOverlay`). It has a wish pool built
  from the photos by a filter and a map. A timer tick appends a bullet, and
  an animation end removes bullets by id.
- The upload size guard in `onFileSelect`: a file over 5 MiB is refused
  before anything reads it.

Modules, one per component, in dependency order:

| file | module | what it holds |
|---|---|---|
| `random_draw.dfy` | `RandomDraw` | `Math.floor(Math.random() * n)` with the random value as a parameter in [0, 1) |
| `sequences.dfy` | `Sequences` | `Array.prototype.filter` and `map` on sequences, with order and membership lemmas |
| `shuffle.dfy` | `Shuffle` | `ShuffleArray` over `array<T>`, specified by the pure function `Shuffled` of the draw indices |
| `wish_pool.dfy` | `WishPool` | `Photo`, the white space of `String.prototype.trim`, the wish pool |
| `danmaku.dfy` | `Danmaku` | `Bullet`, the position and duration draws, removal by id, and the class `Overlay` with `Tick` / `AnimationEnd` |
| `upload.dfy` | `Upload` | the 5 MiB guard of `onFileSelect` |

Randomness, clocks and timers are parameters. Each `Math.random()` value is
a `real` parameter `r` with `0 <= r < 1`. `Date.now() + Math.random()` (a
bullet id) is a `real` parameter. A timer tick and the end of an animation
are method calls.

Points of the code worth knowing when reading the model:

- Positions and durations. `Math.random()` is below 1, so over the reals
  `Math.random() * 70 + 15` lies in the half-open range [15, 85) and
  `Math.random() * 10 + 15` in [15, 25). The model proves these ranges
  over the reals; see `Danmaku.Duration` under "## Left out" for rounding.
- Expiry. `prev.filter(b => b.id !== id)` removes every bullet with that id.
  `WithoutUniqueId` shows this is exactly one bullet when ids are unique.
- Switching the feature off. There is no deactivate operation: the overlay
  is mounted only while `showWishes && !loading` holds (`App.jsx:242-243`).
  Unmounting discards its state, and a remount starts with no bullets,
  which is the `Overlay` constructor. A gallery refresh goes through the
  same path: `fetchImages` sets `loading` before it fetches (`App.jsx:50`),
  so the overlay is unmounted and remounts with the new photos and no
  bullets. `Overlay.SetImages` models a prop change while mounted, which
  React allows but this gallery does not trigger. While the pool is empty
  the overlay keeps its state but draws nothing (`Overlay.Render`).
- Pool order. The pool keeps photo order; `WishesInPhotoOrder` proves it.

## Model

| member | source | states |
|---|---|---|
| `RandomDraw.RandomIndex` | wedding-gallery/src/App.jsx:37 | `Math.floor(r * n)` with `r` in [0, 1) and `n > 0` is an index below `n` |
| `RandomDraw.RandomIndexOnto` | wedding-gallery/src/App.jsx:37 | every index `k < n` is drawn by some value in [0, 1), namely `k / n` |
| `Shuffle.Swap` | wedding-gallery/src/App.jsx:39 | the destructuring swap exchanges the two cells and leaves every other cell alone |
| `Shuffle.Draws` | wedding-gallery/src/App.jsx:35-38 | pass `k` of an `n`-cell shuffle draws `Math.floor(r_k * (n - k))`, so every draw is below the `currentIndex` it was taken at, before the decrement |
| `Shuffle.ShuffledPermutes` | wedding-gallery/src/App.jsx:36-40 | the shuffle's result is a permutation of its input: same multiset |
| `Shuffle.ShuffledKeepsTail` | wedding-gallery/src/App.jsx:36-40 | cells at positions `>= currentIndex` are never touched again |
| `Shuffle.ShuffledPlacesDrawn` | wedding-gallery/src/App.jsx:37-39 | after a pass, cell `currentIndex` (already decremented) holds the element the draw picked, and keeps it |
| `Shuffle.ShuffledInjective` | wedding-gallery/src/App.jsx:34-42 | on distinct elements, two draw sequences that give the same order are equal |
| `Shuffle.ShuffledReachesEvery` | wedding-gallery/src/App.jsx:34-42 | every rearrangement of the first `currentIndex` cells, with the rest left alone, results from some valid draw sequence |
| `Shuffle.ShuffleIsBijective` | wedding-gallery/src/App.jsx:34-42 | for distinct elements every permutation results from exactly one valid draw sequence, so uniform draws give a uniform shuffle |
| `Shuffle.DrawsOnto` | wedding-gallery/src/App.jsx:37 | every valid sequence of swap indices is what some values of `Math.random()` in [0, 1) draw |
| `Shuffle.RandomsReachEvery` | wedding-gallery/src/App.jsx:34-42 | every permutation of the input is the shuffle's result for some values of `Math.random()` in [0, 1) |
| `Shuffle.ShuffleArray` | wedding-gallery/src/App.jsx:34-42 | shuffles the array in place and returns the same array; the contents equal `Shuffled` of the old contents and the draws, and are a permutation of them; the loop ends because `currentIndex` falls from `length` to 0 |
| `WishPool.TrimStart` | wedding-gallery/src/App.jsx:352 | `trim`'s left half: a suffix of the input, everything dropped is white space, and the result does not start with white space |
| `WishPool.TrimEnd` | wedding-gallery/src/App.jsx:352 | `trim`'s right half: a prefix of the input, everything dropped is white space, and the result does not end with white space |
| `WishPool.Trim` | wedding-gallery/src/App.jsx:352 | `s.trim()` is empty exactly when every character of `s` is white space, and otherwise neither starts nor ends with white space |
| `WishPool.HasWishIff` | wedding-gallery/src/App.jsx:352 | a photo passes the filter exactly when it has a description that is not all white space |
| `WishPool.Wishes` | wedding-gallery/src/App.jsx:351-353 | the pool is no longer than the photo list and none of its entries is blank |
| `WishPool.WishesInPhotoOrder` | wedding-gallery/src/App.jsx:351-353 | the pool is exactly the descriptions of the photos that pass the filter, at increasing photo indices, with every passing photo included |
| `WishPool.WishesEmptyIff` | wedding-gallery/src/App.jsx:351-356 | the pool is empty exactly when no photo passes the filter |
| `Sequences.Filter` | wedding-gallery/src/App.jsx:352 | an element is in the filtered sequence exactly when it is in the input and passes the test |
| `Sequences.Map` | wedding-gallery/src/App.jsx:353 | the mapped sequence has the input's length and holds `f` of each element at the same position |
| `Sequences.FilterAppend` | wedding-gallery/src/App.jsx:379 | filtering a concatenation filters each part and concatenates the results |
| `Sequences.FilterOrder` | wedding-gallery/src/App.jsx:352 | the filtered sequence is the input at increasing indices, and those indices are exactly the positions that pass |
| `Sequences.FilterKeepsAll` | wedding-gallery/src/App.jsx:379 | when every element passes, filtering returns the input unchanged |
| `Sequences.FilterIdempotent` | wedding-gallery/src/App.jsx:379 | filtering twice with the same test gives the same result as filtering once |
| `Danmaku.Top` | wedding-gallery/src/App.jsx:366 | over the reals, `r * 70 + 15` lies in [15, 85) |
| `Danmaku.TopOnto` | wedding-gallery/src/App.jsx:366 | every position in [15, 85) is reached by some draw in [0, 1) |
| `Danmaku.Duration` | wedding-gallery/src/App.jsx:367 | over the reals, `r * 10 + 15` lies in [15, 25) |
| `Danmaku.DurationOnto` | wedding-gallery/src/App.jsx:367 | every duration in [15, 25) is reached by some draw in [0, 1) |
| `Danmaku.PickWish` | wedding-gallery/src/App.jsx:361 | `wishes[Math.floor(r * wishes.length)]` on a non-empty pool is a member of the pool |
| `Danmaku.PickWishOnto` | wedding-gallery/src/App.jsx:361 | every wish of the pool can be drawn |
| `Danmaku.NewBullet` | wedding-gallery/src/App.jsx:363-369 | the new bullet has the given id, a caption from the pool, position in [15, 85), duration in [15, 25) and delay 0 |
| `Danmaku.WithoutId` | wedding-gallery/src/App.jsx:379 | a bullet remains exactly when it was live and its id differs from the expired id |
| `Danmaku.WithoutIdInOrder` | wedding-gallery/src/App.jsx:379 | the remaining bullets are the old ones at the positions whose id differs, in their original order |
| `Danmaku.WithoutAbsentId` | wedding-gallery/src/App.jsx:378-380 | expiring an id no bullet carries changes nothing |
| `Danmaku.WithoutIdIdempotent` | wedding-gallery/src/App.jsx:378-380 | a repeated expiry of the same id changes nothing more |
| `Danmaku.WithoutUniqueId` | wedding-gallery/src/App.jsx:378-380 | with unique ids, expiring the id of bullet `i` removes that bullet alone and keeps the rest in order |
| `Danmaku.WithoutIdAfterSpawn` | wedding-gallery/src/App.jsx:371-379 | expiring another id keeps a newly appended bullet at the tail; expiring the new bullet's own id, when no older bullet has it, restores the list from before the tick |
| `Danmaku.Overlay.Pool` | wedding-gallery/src/App.jsx:351-353 | the overlay's pool is derived from its current photos and is no longer than them |
| `Danmaku.Overlay.constructor` | wedding-gallery/src/App.jsx:347-348 | mounting starts with the given photos and no bullets |
| `Danmaku.Overlay.SetImages` | wedding-gallery/src/App.jsx:347-353 | a new `images` prop while mounted replaces the photos, which changes the pool; the `bullets` state is unchanged |
| `Danmaku.Overlay.Tick` | wedding-gallery/src/App.jsx:355-372 | with an empty pool nothing is created; otherwise exactly one `NewBullet` is appended at the tail and the earlier bullets are unchanged and in order; every live bullet stays well placed with a non-blank caption |
| `Danmaku.Overlay.AnimationEnd` | wedding-gallery/src/App.jsx:378-380 | the bullets become `WithoutId` of the old bullets, and the invariant is kept |
| `Danmaku.Overlay.Render` | wedding-gallery/src/App.jsx:382-386 | with an empty pool the overlay draws nothing, otherwise every live bullet |
| `Upload.OnFileSelect` | wedding-gallery/src/App.jsx:103-111 | no file chosen does nothing; the first file is read exactly when its size is at most 5 MiB, and otherwise it is refused |
| `Upload.LimitIsInclusive` | wedding-gallery/src/App.jsx:106 | a file of exactly 5 MiB is read, and one byte more is refused |
| `Upload.SixMiBRefused` | wedding-gallery/src/App.jsx:106-108 | a 6 MiB file is refused before any read |
| `Upload.SmallerStillAccepted` | wedding-gallery/src/App.jsx:106 | if a file is accepted, any file no larger than it is accepted too |

## Left out

- The listing, upload and caption-generation requests (`App.jsx:44-65`, `68-93`, `118-148`): these are network I/O against external services.
- `FileReader`, `alert`, `setTimeout` and `setInterval`. They are I/O and wall-clock scheduling. `OnFileSelect` ends at the decision to start a read. The reader's `onload` (which sets the preview and clears the caption) is not modelled.
- Danmaku.Duration: the range [15, 25) holds over the reals only. In doubles, `Math.random()` can return 1 - 2^-52, and `r * 10 + 15` then rounds to exactly 25. IEEE-754 arithmetic is not modelled. `Danmaku.Top` stays below 85 in doubles as well, but that is not proved either.
- `Math.random()` and `Date.now()`: their values are parameters. IEEE-754 rounding is not modelled. The draws are exact reals, so `RandomIndex` assumes `floor(r * n)` is computed exactly.
- The React effect is re-created on every render, because `wishes` is a new array each time (`App.jsx:351`, `375`). This is a timing artefact. A tick uses the current pool.
- Bullet-id uniqueness: nothing in the code guarantees it, so the model does not assert it. Removal by id is proved without it. `WithoutUniqueId` takes uniqueness as a hypothesis.
- JSX, CSS keyframes, modals, the static story text and the toolbar toggle are presentational. The toggle enters the model only as mounting (`Overlay.constructor`).
- A description that is present but not a string would make `trim` throw in the source. `Photo.description` is an optional string, so this case cannot be expressed.
