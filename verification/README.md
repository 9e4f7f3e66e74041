# In memoriam — exploration state machine

A Dafny model of the interactive core of the *In memoriam* page. A butterfly is
moved over a game container with the arrow keys. Artists' tombstones sit at fixed
pixel positions. When the butterfly comes within 40 pixels of a tombstone, that
tombstone is highlighted, and pressing `e` opens a modal about the artist.

Each key press is one step of a pure function on an immutable state record:

- `pos` is `playerPos`,
- `marked` is the index of the highlighted tombstone,
- `nearby` is `nearbyArtistId`,
- `modal` records whether the dialog is active and which artist it holds.

The artist table and the measured container and butterfly sizes are parameters.

Modules, one per concern of `script.js`:

| file | module | models |
|---|---|---|
| options.dfy | `Options` | `null` / lookup miss as `Option` |
| world.dfy | `World` | the artist table, constants, start position, `artists.find` |
| pixels.dfy | `Pixels` | `${x}px` and `parseInt(…, 10)` on tombstone offsets |
| movement.dfy | `Movement` | the key switch, the fixed step and the bounds clamp |
| proximity.dfy | `Proximity` | `checkInteraction` |
| modal.dfy | `Modal` | `openModal` / `closeModal` |
| game.dfy | `Game` | the `keydown` handler, close clicks, runs of events |

What the page's proximity and movement code does, and so what the model does:

- The scan stops at the **first** tombstone in table order that is in range. It
  does not look for the closest one.
- Distance is measured from the butterfly's top-left corner to the tombstone's
  top-left corner, even though a comment in the code says "centre".
- There is one radius, 40. There are no separate close and far zones.
- Movement is a fixed 15-pixel step per key press, with no smoothing.

The distance test `sqrt(dx² + dy²) < 40` becomes `dx² + dy² < 1600` on whole
numbers. `Proximity.RootTest` proves the two tests agree.

`nearbyArtistId` holds the tombstone's `data-artist-id` text. That text is never
empty, so the check `if (nearbyArtistId)` holds exactly when the value is not
`null`, and `Option<int>` models it. `openModal` compares ids with the loose `==`
between a number and its decimal text, which is plain integer equality here.

## Model

| member | source | states |
|---|---|---|
| World.Find | script.js:87-88 | returns the first artist with the given id; it returns nothing exactly when no artist in the table has that id |
| Pixels.PxRoundTrip | script.js:61-62 | reading a tombstone's `left`/`top` text back with `parseInt` gives exactly the whole number written as `${x}px` at lines 34-35 |
| Movement.KeyOf | script.js:107-126 | each arrow name selects its own case and `e`/`E` selects the interaction case; every other key falls through to the clamp; the comparison is case-sensitive |
| Movement.Move | script.js:107-119 | Up and Down change only y, by -15 and +15; Left and Right change only x, by -15 and +15; a non-arrow key leaves the position as it is |
| Movement.Clamp | script.js:129-130 | the result lies in `[0, max(0, hi)]` and is the point of that interval nearest to the input; the input is returned unchanged exactly when it already lies in the interval |
| Movement.ClampToContainer | script.js:129-130 | the clamped position is inside `[0, max(0, W-w)] × [0, max(0, H-h)]`; the position is unchanged exactly when it was already inside |
| Proximity.RootTest | script.js:65-69 | for a non-negative root `d` of the squared distance, `d < 40` holds exactly when the squared distance is below 1600 |
| Proximity.FirstNear | script.js:60-75 | the index found is within reach and no earlier tombstone is; nothing is found exactly when no tombstone is within reach |
| Proximity.NearbyId | script.js:69-79 | `nearbyArtistId` is cleared exactly when no tombstone is in reach; otherwise it is the id of the first tombstone in reach |
| Proximity.EarlierWins | script.js:60-75 | when two tombstones are in reach, the later one is not chosen even if it is strictly closer |
| Proximity.CheckInteraction | script.js:53-80 | the clear-then-loop-with-break code computes the same id as the first-match scan, whatever the previous highlights and id were; at most one tombstone is highlighted; the highlighted one is the one whose id became `nearbyArtistId`; an id is set exactly when some tombstone is highlighted |
| Modal.OpenModal | script.js:86-93 | a known id makes the dialog active and showing that artist; an unknown id leaves the dialog exactly as it was |
| Modal.CloseModal | script.js:98-100 | the dialog becomes inactive and keeps the artist it last showed, so closing twice is the same as closing once |
| Game.Step | script.js:106-134 | `e`/`E` never moves the butterfly or changes the nearby id or highlight; with no nearby artist it changes nothing; any other key moves the butterfly by the switch's step and then clamps it (so it ends inside the container), leaves the modal alone and recomputes the nearby id and highlight from the new position |
| Game.ArrowStep | script.js:107-130 | from an in-bounds position, Up keeps x and sets y to `max(0, y-15)`, Down sets y to `min(y+15, max(0, H-h))`, Left and Right do the same on x; the other axis is unchanged |
| Game.InitConsistent | script.js:20-21 | the page starts at `(50, 50)` with no nearby artist and the dialog hidden, in a consistent state |
| Game.ApplyPreservesConsistent | script.js:106-143 | every key press and close click keeps the highlight, the nearby id and the dialog's artist in agreement with the table, and keeps the highlighted tombstone the first one within reach of the butterfly |
| Game.RunPreservesConsistent | script.js:106-143 | the consistency invariant holds after any sequence of events |
| Game.InteractOpensNearby | script.js:120-125 | in a consistent state, `e` with a nearby artist always opens the dialog on that artist, whose tombstone is the highlighted one and the first within reach of the butterfly; the lookup miss in `openModal` cannot happen from the key handler |
| Game.OtherKeyRescans | script.js:128-133 | a key that is neither an arrow nor `e`/`E` leaves an in-bounds butterfly where it is but still recomputes the nearby id |
| Game.OnlyInteractOpens | script.js:106-143 | arrow keys, other keys and close clicks never make a hidden dialog active |
| Game.RunStaysInBounds | script.js:128-130 | once the butterfly is inside the container it stays inside for any later sequence of events |
| Game.RunAfterMoveInBounds | script.js:128-130 | after any key other than `e`/`E` has been pressed, the butterfly stays inside the container, wherever it started |
| Game.WalkToFirstTombstone | script.js:4-9 | with the page's artist table and an assumed 800×600 container and 30×30 butterfly (the page measures both at run time), six presses down and three right from the start bring artist 1 within reach, and `e` then opens the dialog on artist 1 |

## Left out

- Building the DOM, styling, and `classList` mutation are not modelled. The `interactive` highlight is the index `marked`, or the flag sequence in `CheckInteraction`.
- `updateButterflyPosition` is not modelled. It only copies `playerPos` into CSS.
- Listener registration is not modelled. The two click handlers are one `CloseClick` event. Telling a backdrop click from a click on the dialog's content is DOM behaviour.
- Artist names and biographies are not modelled. The dialog's content is the id of the artist shown.
- Container and butterfly sizes are a `Layout` parameter of each step. `Run` uses one layout for the whole sequence, so resizing the window between key presses is not modelled there.
- `Math.sqrt`/`Math.pow` are not modelled as floating point. Coordinates are whole numbers, so the squared comparison is exact. Sums beyond 2^53, where doubles lose precision, are not modelled.
- Pixels.ParseInt: does not skip leading white space as `parseInt` does. The strings it reads never start with white space.
- The page has no camera offset, minimap, smoothing, proximity levels or zones, or particles, so none are modelled.
- Pixels.Decimal: spells whole numbers in plain digits, which matches `${n}` only below 10^21; above that JavaScript prints exponent form. Tombstone coordinates are far below that.
