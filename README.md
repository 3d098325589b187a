# Birthday card navigation model

A Dafny model of the one piece of logic in the click-to-open birthday card
(`src/App.tsx`): the `App` component's three state values (`isOpen`,
`currentIndex`, `isFlipped`), its three click handlers (the envelope's
`onClick`, `handleNext`, `handlePrev`) and the render-time choice between the
envelope, one polaroid and the letter, together with which buttons that view
shows and whether the previous button is disabled.

- `card.dfy`, module `Card`: the state as a value (`CardState`), the handlers
  as the pure transition `Step` (built from `NextIndex` and `PrevIndex`), the
  view selection `ViewOf` and the enabled click targets of a view
  (`Controls`). Two ways of running a sequence of clicks: `Run` calls the
  handlers directly, whatever is on screen; `Interact` lets a click land only
  on a control the current view renders and leaves enabled. Lemmas state the
  range invariant, irreversibility of opening, the untouched flip flag,
  idempotent opening, the boundary no-ops, the next/previous round trip and
  the letter being terminal.
- `card_view.dfy`, module `CardComponent`: class `CardView`, whose fields the
  handler methods `Open`, `HandleNext` and `HandlePrev` update in place. Each
  method is proved against `Card.Step`, so the lemmas about `Run` apply to
  any sequence of method calls on the object.

The photo list and the letter are build-time data: a `Config` value holding
a sequence of `Photo(url, caption)` of any length `N` and a string. Nothing
in the model depends on the concrete photos, captions or letter text.

Boundary behaviour of the rendered controls:

- In the letter view no button is rendered: both buttons sit inside the
  `currentIndex < photos.length` branch (src/App.tsx:126-160).
  `LetterHasNoControls` and `LetterIsTerminal` state this, and `handlePrev`
  would still step back from the letter if it were called (`Run`,
  `PrevsRetreat`).
- The next button has no `disabled` attribute (src/App.tsx:153-158); it is
  rendered only beside a polaroid, where clicking it is never a no-op
  (`ControlsTakeEffect`).
- As written, the `photos` literal has no comma between its third and fourth
  entries (src/App.tsx:22-23), so the file does not parse. The evident intent
  is four photos; the model takes the photo list as a parameter of any length.

## Model

| member | source | states |
|---|---|---|
| `Card.NextIndex` | src/App.tsx:43-47 | next moves the index by at most one step forward; it advances exactly when the index is below the photo count; an index in `[0, N]` stays in `[0, N]` |
| `Card.PrevIndex` | src/App.tsx:49-53 | previous moves the index by at most one step back; it retreats exactly when the index is above 0; a non-negative index stays non-negative and does not grow |
| `Card.Step` | src/App.tsx:43-61 | no handler changes `isFlipped`; the result is open exactly when the state was open or the envelope was clicked; opening leaves the index alone; the buttons move the index by at most one; the range `[0, N]` is preserved |
| `Card.ViewOf` | src/App.tsx:58-168 | closed gives the envelope; open with index below `N` gives the polaroid of `photos[index]` (index in bounds) with the previous button disabled exactly at index 0; open with index at or above `N` gives the letter |
| `Card.Controls` | src/App.tsx:58-171 | the envelope is the click target exactly while closed (its `onClick`); the next button is offered exactly beside a polaroid; the previous button exactly beside a polaroid whose `disabled` (`currentIndex === 0`) is false; the letter view offers nothing |
| `Card.Interact` | src/App.tsx:58-171 | clicking only on what the current view renders and leaves enabled keeps the index in `[0, N]`, never closes an open card and never changes `isFlipped` |
| `Card.ControlsTakeEffect` | src/App.tsx:143-159 | every control the current view renders and leaves enabled changes the state when clicked |
| `Card.PhotoControlsExact` | src/App.tsx:143-159 | in the photo view a control is offered exactly when its handler has an effect; the previous button is disabled exactly at index 0 and the next button never is |
| `Card.LetterHasNoControls` | src/App.tsx:126-171 | the letter view renders no button, although `handlePrev` would step back from it to `N - 1` |
| `Card.RunKeepsRange` | src/App.tsx:40-53 | `0 <= currentIndex <= N` is preserved by every sequence of handler calls |
| `Card.RunNeverCloses` | src/App.tsx:39-61 | once open, no sequence of handler calls closes the card |
| `Card.RunKeepsFlipped` | src/App.tsx:41-53 | no sequence of handler calls changes `isFlipped` |
| `Card.RunFromInitial` | src/App.tsx:39-53 | from the mount state, every sequence of handler calls ends with the index in `[0, N]` and the card unflipped |
| `Card.OpenIdempotent` | src/App.tsx:61 | one or more envelope clicks only set `isOpen` to true, leaving the index and the flag alone |
| `Card.NextsAdvance` | src/App.tsx:43-47 | `k` next clicks from an index `i` in range reach `min(i + k, N)`; at the letter a next click is a no-op |
| `Card.PrevsRetreat` | src/App.tsx:49-53 | `k` previous clicks from an index `i` in range reach `max(i - k, 0)`; at index 0 a previous click is a no-op |
| `Card.NextsThenPrevs` | src/App.tsx:43-53 | `k` next clicks that do not pass the letter followed by `k` previous clicks return to the same state; with `k = 1`, next then previous from `i < N` returns to `i` |
| `Card.InteractKeepsReachable` | src/App.tsx:58-159 | clicking only on rendered, enabled controls keeps the index in range, keeps it at 0 while closed, and never flips the card |
| `Card.InteractFromInitial` | src/App.tsx:39-159 | from the mount state, every sequence of clicks on the card ends in such a reachable state |
| `Card.LetterIsTerminal` | src/App.tsx:126-171 | once the letter shows, no sequence of clicks changes the state |
| `CardComponent.CardView.constructor` | src/App.tsx:39-41 | the component mounts closed, at index 0, unflipped, and in range |
| `CardComponent.CardView.Open` | src/App.tsx:61 | the envelope click sets `isOpen`, changes no other field, and is the step `Step(_, EnvelopeClick, N)` |
| `CardComponent.CardView.HandleNext` | src/App.tsx:43-47 | `handleNext` changes only `currentIndex`, to `NextIndex` of the old index, and keeps the range invariant |
| `CardComponent.CardView.HandlePrev` | src/App.tsx:49-53 | `handlePrev` changes only `currentIndex`, to `PrevIndex` of the old index, and keeps the range invariant |

## Left out

- The markup, Tailwind classes and the envelope's clip-path shapes (src/App.tsx:56-118): presentation only; `tailwind.config.js` is build configuration.
- The framer-motion animations (`AnimatePresence`, `motion.div`, `rotateY`, opacity and scale): a foreign library with cosmetic floating-point parameters. `isFlipped` is kept only as a flag that never changes.
- React's state scheduling: the handlers test the rendered value of `currentIndex` but update it through a functional setter, so two clicks flushed before a re-render could both pass the guard. Each click is modelled as one atomic step on the current state.
- Image loading and the concrete photo URLs, captions and letter text: they are opaque build-time data (`Config`).
- That the render is a pure function of `(isOpen, currentIndex)` needs no lemma: `ViewOf` takes exactly those two values and the configuration, and Dafny functions are deterministic.
