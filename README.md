# Accordion disclosure state machine

A Dafny model of the accordion on the portfolio page (`script.js`). The page
has a fixed list of `.accordion-item`s. Each item has three pieces of state:
the "active" class, its content's inline `style.maxHeight`, and its header's
`aria-expanded` attribute. A click on an item's header does four things:

1. It reads whether that item was active.
2. It closes every other item: no "active" class, `maxHeight` "0px", `aria-expanded` "false".
3. It toggles the clicked item. An active item is closed. An inactive one opens to its content's current `scrollHeight`.
4. If the `ScrollTrigger` global is defined, it schedules one `ScrollTrigger.refresh()` after 500 ms. That delay matches the CSS transition.

The model has two modules:

- `AccordionSpec` (`accordion_spec.dfy`) describes the page as values.
  - `Item` holds one item's state. `maxHeight` stores the N of the style string "Npx".
  - `Page` holds the items plus the log of scheduled refresh delays.
  - `Toggle`, `Step` and `Run` say what one click, and a sequence of clicks, do.
  - Lemmas state the handler's guarantees.
- `AccordionWidget` (`accordion.dfy`) holds the same state the way the page does: arrays of per-item state in a class. Its `Click` method rewrites them in place with a loop over every item, as the handler's `forEach` does. Its postcondition equates the new state with `Step` applied to the old state.

The initial item states are a parameter of the constructor, because the markup decides them. Each content's `scrollHeight` is an array that the class reads and never writes. The layout may change it between clicks, and each click uses the value current at that moment. The presence of the `ScrollTrigger` global is a parameter of each click.

Two details of the code shape the model:

- There is no debounce. Every click schedules its own timeout (script.js:42-46), so the model adds one log entry per click.
- Every click forces every other item closed, even a click that closes the clicked item (script.js:19-27). This is visible when the page starts with more than one item open, or with an inactive item whose aria-expanded or maxHeight does not match its flag.

## Model

| member | source | states |
|---|---|---|
| AccordionSpec.Toggle | script.js:15-38 | Keeps one state per item. What that state is, is stated by the Toggle lemmas below. |
| AccordionSpec.Step | script.js:15-47 | One click keeps the number of items. It changes the item states as `Toggle` does and extends the refresh log as `StepSchedulesRefresh` states. |
| AccordionSpec.Run | script.js:11-48 | A sequence of clicks handled one after another keeps the number of items. |
| AccordionSpec.ToggleActiveSet | script.js:16-38 | After a click, no item is active if the clicked item was active. Otherwise the clicked item is the only active item. Both directions are stated. |
| AccordionSpec.ToggleAtMostOneActive | script.js:19-38 | After any click at most one item is active, whatever the state before it. |
| AccordionSpec.ToggleCollapsesOthers | script.js:19-27 | Every item other than the clicked one ends inactive, with maxHeight 0 and aria-expanded false, whatever its previous state. |
| AccordionSpec.ToggleOpensInactive | script.js:16-38 | Clicking an inactive item opens it with maxHeight equal to its scrollHeight at click time and aria-expanded true. It becomes the only active item. |
| AccordionSpec.ToggleClosesActive | script.js:16-33 | Clicking the active item closes it. Afterwards every item is closed and none is active (toggle-to-close). |
| AccordionSpec.ToggleMirrors | script.js:21-37 | After a click, each item's aria-expanded equals its active flag. Its maxHeight is its scrollHeight if active and 0 otherwise. |
| AccordionSpec.ToggleDependsOnlyOnClickedFlag | script.js:16-38 | Two states that agree on whether the clicked item was active give the same result. No other prior flag, height or attribute matters. |
| AccordionSpec.ToggleTwiceCollapses | script.js:30-38 | Clicking an inactive item twice leaves every item closed. |
| AccordionSpec.ToggleTwiceRoundTrip | script.js:30-38 | From the all-closed state, clicking the same item twice gives back exactly the all-closed state. |
| AccordionSpec.SwitchPanels | script.js:19-37 | With item a open and the invariant holding, a click on b closes a and opens b to its scrollHeight. b is then the only open item. |
| AccordionSpec.StepSchedulesRefresh | script.js:42-46 | A click keeps the earlier log. It adds exactly one refresh, with delay 500, when ScrollTrigger is defined and none otherwise. |
| AccordionSpec.RunKeepsAtMostOneActive | script.js:11-48 | If at most one item is active at the start, that still holds after any sequence of clicks. |
| AccordionSpec.RunEstablishesInvariant | script.js:11-48 | After any non-empty sequence of clicks from any initial state, at most one item is active and every item's aria-expanded and maxHeight mirror its active flag. |
| AccordionSpec.RunRefreshes | script.js:9-46 | A sequence of clicks appends one 500 ms refresh for each click that found ScrollTrigger defined, and nothing else. |
| AccordionWidget.Accordion.constructor | script.js:8-13 | Item arrays are filled from the given initial states and the measured heights. The refresh log starts empty. |
| AccordionWidget.Accordion.Click | script.js:15-47 | The in-place loop leaves the items and log equal to `Step` of the previous state, with the current scrollHeights. It also leaves at most one item active, with every item mirroring its flag. |

## Left out

- The GSAP/ScrollTrigger timeline built for each `.animated-section` (script.js:52-85) is left out. It configures a third-party tweening library whose interpolation, scrubbing and easing are not visible here and use floating point.
- The wait on `document.fonts.ready` and its fallback on rejection (script.js:90-99) are left out. They are asynchronous browser signalling: `initAnimations` runs in both cases.
- The timer itself and what `ScrollTrigger.refresh()` does (script.js:43-45) are left out. Only the fact that a refresh with delay 500 was scheduled is recorded.
- DOM querying, listener registration and the `DOMContentLoaded` wiring (script.js:6, 8, 12-15) are left out. The item list and each content's `scrollHeight` are inputs.
- `maxHeight` is modelled as its pixel count. The "px" string formatting is not modelled, and neither is any value the stylesheet gives before the first click other than a pixel count.
- Items without a `.accordion-header` or `.accordion-content` element are not modelled: every item is assumed to have both. In the code, if item k has no content element, a click on another item's header throws a TypeError at script.js:22. By then script.js:21 has already removed k's "active" class. Later items stay as they were, the clicked item is not toggled, and no refresh is scheduled. A click on k's own header throws at script.js:32 or script.js:36, after the class change at script.js:31 or script.js:35. This error path is not part of the model.
- AccordionSpec.Run: the content heights are held fixed over the whole sequence of clicks. The class's `Click` allows them to change between clicks.
