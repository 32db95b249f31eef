# debug.js panel registry and layout, in Dafny

This project models the live panel-management logic of `debug.js`, a
browser debug overlay. Panels are `div`s added to the left or the right side
of the window. Each side keeps:

- an insertion-ordered map from panel name to panel;
- a `minimized` list of hidden panels;
- an `isMinimized` flag;
- a minimize control, which carries a count badge.

Clicking a panel hides or shows it, or expands or collapses it when the panel
is expandable. Clicking the badge shows the panel hidden most recently.
Clicking the control's button minimizes or restores the whole side. After
every change, `resize()` stacks the shown panels upwards from the bottom of
the window, with a 10-pixel gap between entries.

The DOM is replaced by plain values:

- Elements are indices. A panel is an index into `State.elements`. A minimize
  control is an index into `State.controls`, which records the side the
  control belongs to.
- The registry is an immutable `State`. The click handlers and `add` are pure
  functions `State -> State` (module `Registry`).
- The style fields the layout writes are a `Dom` value. `resizeSide` and
  `resize` are pure functions `Dom -> Dom` (module `Layout`).
- The browser's measurements are inputs (a `View`). These are `innerWidth`,
  `innerHeight`, and each element's `offsetHeight`.
- `Overlay` combines the two halves: each event handler is a registry
  transition followed by `resize()`.
- `DebugOne` models how `debugOne` picks its target panel and how it joins
  an array of items with `", "`.

Supporting modules:

- `OrderedMap`: the name -> panel dictionary, a JavaScript object. Assigning
  to an existing name replaces its value in place.
- `SeqOps`: `indexOf`, `push`, `splice(i, 1)` and `pop` on the `minimized`
  list.
- `Wrappers`: `Option`.

The source's quirks are modelled as written:

- `minimizeCreate(isLeft)` is called with the strings `'right'` and `'left'`.
  Both are truthy, so every control is built for, and stored on, the left
  side. The right side never gets a control, so `resize()` never lays it out.
  Because the right side has no control, every `add` on the left creates a
  new left control.
- Only the exact option `side: 'right'` selects the right side.
- `display: block` is restored only for panels with `options.size`. A shown
  panel without a size that was hidden once (for example by minimizing the
  side) stays hidden.
- A number option counts as given only when it is non-zero, which is
  JavaScript truthiness. An absent option is `0.0`.
- A panel replaced under the same name stays in the document and can still be
  clicked. Its entry can stay in `minimized`, where `pop` may remove it. It is
  not counted in the badge.

Some things `debug.js` does not have, or does differently from what one
might expect of such an overlay:

- There are exactly two sides, left and right.
- No panel is anchored to a parent element.
- There is no remove operation and no persisted state.
- Side names are not resolved through aliases. Only `'right'` selects the
  right side.
- A minimized side parks its control at `innerHeight / 2`.
- A minimized side hides the count badge.
- `init()` never finishes. After its `add` (line 15), line 16 reads `error`.
  Nothing outside the commented-out block at lines 282-729 declares that
  name, so the read throws a ReferenceError. The window's `error` and
  `resize` listeners are therefore never registered, and only `add` and the
  three click handlers ever call `resize()`.

## Model

| member | source | states |
|---|---|---|
| OrderedMap.Get | debug.js:80 | looking up a name gives nothing exactly when the name was never stored, and otherwise gives the panel stored under it |
| OrderedMap.Put | debug.js:58 | after `panels[name] = div` the name yields the new panel and every other name yields what it did before |
| OrderedMap.PutKeys | debug.js:58 | a name already present keeps its enumeration position; a new name is enumerated last |
| OrderedMap.PutValuesNoDup | debug.js:58 | storing a panel not yet in the map introduces no panel twice |
| SeqOps.IndexOf | debug.js:191 | `indexOf` is -1 exactly when the panel is absent, and otherwise is the position of its first occurrence |
| SeqOps.Toggle | debug.js:191-199 | an absent panel is appended; a present one is spliced out; on a list without duplicates membership flips and no duplicate appears; all other entries keep their relative order |
| SeqOps.Pop | debug.js:178 | `pop` removes exactly the last entry, and leaves an empty list unchanged |
| Registry.MinimizeCreate | debug.js:110-131 | a truthy `isLeft` (any non-empty string, so both 'right' and 'left') creates a new control and stores it on the left side, leaving the right side unchanged |
| Registry.Add | debug.js:25-64 | the new panel is stored under its name on the side `options.side === 'right'` selects and other names keep their panels; it becomes default when there is none yet or `options.default` is set; a left add always creates a left control; a right add creates one only when the left side has none; the right side never gets a control |
| Registry.AddKeepsOrder | debug.js:58 | after an add, a side's names are the old names, plus the new name at the end when it was not there before |
| Registry.StorePreservesValid | debug.js:58 | storing a freshly created panel under its name, replacing any earlier panel of that name, leaves every name and every stored panel appearing once on its side |
| Registry.AddPreservesValid | debug.js:38-58 | after an add, every control belongs to the left side, the left side holds the newest control, the right side has none, and no panel is stored twice |
| Registry.HandleClick | debug.js:182-202 | an expandable panel flips `expanded` and no `minimized` list changes; any other panel is appended to its side's `minimized` list when absent and removed when present; the other entries keep their order and no duplicate appears |
| Registry.HandleClickPreservesValid | debug.js:182-202 | panel clicks keep the registry well formed; in particular `minimized` never holds a panel twice |
| Registry.HandleCount | debug.js:175-180 | a badge click removes the last entry of its side's `minimized` list and changes nothing else; on an empty list nothing changes |
| Registry.HandleCountPreservesValid | debug.js:175-180 | badge clicks keep the registry well formed |
| Registry.HandleMinimize | debug.js:166-173 | the control's side has its `isMinimized` flag flipped and nothing else changes |
| Registry.ControlsActOnLeft | debug.js:166-179 | in every reachable state, clicks on any control act on the left side and leave the right side unchanged |
| Registry.MinimizeTwiceRestores | debug.js:170 | two clicks on a minimize button restore the state |
| Registry.ExpandTwiceRestores | debug.js:185-188 | two clicks on an expandable panel restore the state |
| Registry.HideThenShowRestores | debug.js:189-200 | two clicks on a shown non-expandable panel restore the state |
| Registry.CountUndoesHide | debug.js:175-200 | hiding a panel and then clicking its side's badge restores the state, so the most recently hidden panel comes back |
| Registry.DefaultKeptWithoutFlag | debug.js:31-34 | once a default panel exists, adds without `options.default` never change it |
| Registry.FirstPanelIsDefault | debug.js:31-34 | without `options.default`, the first panel ever added is the default |
| Registry.LastFlaggedIsDefault | debug.js:31-34 | after any series of adds, the default is the panel of the last add that set `options.default` |
| Layout.Visible | debug.js:220-226 | the stacked panels are exactly the registered panels that are not in `minimized` |
| Layout.VisibleConcat | debug.js:220-226 | the split into shown panels keeps enumeration order: it distributes over concatenation |
| Layout.VisibleNoDup | debug.js:220-226 | no panel is stacked twice |
| Layout.HiddenCount | debug.js:218-232 | the hidden count plus the number of stacked panels is the number of registered panels |
| Layout.HiddenCountIsCardinality | debug.js:218-232 | the count is the number of distinct registered panels that appear in `minimized` |
| Layout.ExtentShift | debug.js:235-256 | the offset sum of a stack equals the first entry's `10 + height` plus the offset sum of the remaining entries |
| Layout.StackOffsets | debug.js:235-256 | the running `current` gives entry i the sum of `10 + height` over the entries before it |
| Layout.ExtentSeparates | debug.js:235-256 | the first offset is 0, and every entry starts at least 10 above the top of every earlier entry, so offsets strictly increase and entries never overlap |
| Layout.CollapseSide | debug.js:206-215 | on a minimized side every registered panel gets `display: none` and nothing else; the control moves to `innerHeight / 2`; its badge is hidden; everything else is unchanged |
| Layout.StackSideOffsets | debug.js:233-257 | on a side that is not minimized, the stacking entries are the shown panels in enumeration order and then the control, and entry k's `bottom` is the sum of `10 + height` over the entries before it |
| Layout.StackSidePanelOffset | debug.js:235-239 | a shown panel's `bottom` is the sum of `10 + height` over the shown panels enumerated before it |
| Layout.StackSideSizes | debug.js:240-253 | a shown panel with `options.size` gets `display: block` and width = height = `min(innerWidth, innerHeight)` times `options.expandable` if it is expandable and expanded, or times `options.size` otherwise; a shown panel without a size keeps its display and size |
| Layout.StackSideHides | debug.js:227-231 | a registered panel in `minimized` gets `display: none` and nothing else |
| Layout.StackSideBadge | debug.js:258-266 | the badge is hidden exactly when no registered panel of the side is in `minimized`, and otherwise is shown with that number |
| Layout.StackSideLeavesOthers | debug.js:220-233 | panels not registered on the side keep their styles |
| Layout.ResizeSide | debug.js:204-268 | laying out a side changes no panel registered elsewhere |
| Layout.Resize | debug.js:270-280 | a side without a minimize control is not laid out: its panels keep their styles |
| DebugOne.Resolve | debug.js:72-81 | with neither panel nor name the target is the default panel; a given panel wins; otherwise the left side's panel of that name, then the right side's; no target exactly when the name is on neither side |
| DebugOne.ResolvedPanelExists | debug.js:74-81 | in a well-formed state, a panel found by name exists |
| DebugOne.JoinSnoc | debug.js:86-89 | appending an item to a non-empty list appends `", "` and the item to the joined text |
| DebugOne.JoinLength | debug.js:86-89 | the joined text holds every item plus one two-character separator between each pair of items |
| DebugOne.JoinItems | debug.js:86-89 | the loop that appends each item, with `", "` after every item but the last, yields the items separated by `", "` |
| DebugOne.Debug | debug.js:70-93 | the write goes to the resolved panel, with the background `color`, or `rgb(100,100,100)` when no color is given, followed by the text or the joined items; when no panel resolves (no default panel yet, or a name on neither side) the result is `None`, which stands for the TypeError line 83 throws to the caller when it assigns to `innerHTML` of null or undefined |
| Overlay.Grow | debug.js:28-29 | newly created elements get their initial styles and existing ones keep theirs |
| Overlay.OnAdd | debug.js:25-64 | `add` followed by `resize()` keeps the registry and the styles consistent |
| Overlay.Init | debug.js:13-17 | `init()` leaves the registry and layout of `add('debug', {size: 0.15})` behind, consistent, and then throws a ReferenceError at line 16, before any window listener is registered |
| Overlay.OnClick | debug.js:182-202 | a panel click followed by `resize()` keeps the registry consistent |
| Overlay.OnCount | debug.js:175-180 | a badge click followed by `resize()` keeps the registry consistent |
| Overlay.OnMinimize | debug.js:166-173 | a minimize click followed by `resize()` keeps the registry consistent |
| Overlay.InitLayout | debug.js:13-15 | after `init()` the 'debug' panel is the default and the only left panel, a visible square of 0.15 times `max` at bottom 0; the control sits `10 + height` above it with its badge hidden |
| Overlay.RightPanelNeverPlaced | debug.js:39-47 | a panel added on the right keeps its initial style, because the right side is never laid out |
| Overlay.RightSideUntouched | debug.js:270-280 | neither `resize()` nor any call (`add`, a panel click, a badge click, a minimize click) changes the style of a panel registered on the right |
| Overlay.MinimizedSideHidesAll | debug.js:206-215 | while the left side is minimized, `add`, a panel click and a badge click each leave all its panels (a new one included) and its badge hidden and its control at half the window height |
| Overlay.MinimizeRoundTrip | debug.js:166-172 | minimizing and then restoring the left side gives back the state and, for the same measured heights, every panel's `bottom` and size and every control's style that a relayout of the unchanged registry gives |
| Overlay.UnsizedPanelStaysHidden | debug.js:240-253 | minimizing and then restoring the side leaves a shown panel without `options.size` hidden |

## Left out

- Panel names that are array indices (`'0'`, `'12'`) or inherited `Array`
  properties (`'length'`, `'push'`): `side.panels` is an `Array`, so JavaScript
  enumerates index-like names first, in numeric order. The model enumerates
  every name in insertion order. So it matches the source only for ordinary
  names.
- The commented-out block at debug.js:282-729 is dead code. It held the
  message log, meters, the FPS counter and the old `resize`.
- The module export boilerplate (debug.js:731-764) is left out.
- index.js is left out. It is a demo page that calls an API this file does
  not define.
- Styling is left out: `style()`, colours, shadows, padding, `fontSize`
  (line 252), `click()`, `pointerEvents`, and the `addEventListener` calls in
  `minimizeCreate`. None of these affects the registry or the
  stacking.
- The `error` and `resize` listeners of `init` (lines 16-17) are not
  modelled because they are never registered: line 16 throws first.
  `Overlay.Init` records the throw.
- The minimize button's label (`+` or `—`, line 171) is left out. It is
  cosmetic text on whichever control was clicked.
- Part of `debugOne` is left out: the HTML parsing the browser applies on
  each `innerHTML` assignment, and `scrollTop`. `Debug` returns the markup
  strings the code concatenates, not the parsed DOM.
- `debugOne` models only two kinds of text: a string or an array of strings.
  The source also accepts other objects, `null` and arrays of non-strings,
  which JavaScript converts or on which it throws.
- DOM measurement is left out. `offsetHeight` is an input (`View.height`)
  giving the height the browser reports after styling. The model does not
  derive it from the size it sets, or from `display: none`.
- Floating-point pixel arithmetic is left out. Fractions, sizes and
  `innerHeight / 2` are exact `real`s. Heights and viewport sizes are
  naturals.
- Event dispatch is left out: `e.currentTarget.offsetParent` is modelled by
  passing the clicked panel or control directly.
- `Overlay.MinimizeRoundTrip`: compares the two layouts for the same
  measured heights. In a browser, a shown panel without `options.size`
  stays at `display: none` after the round trip (`UnsizedPanelStaysHidden`)
  and then measures 0. Every entry above it then sits lower than in a fresh
  relayout. The lemma describes the browser only when every shown left
  panel has a size.
- `click()` (lines 158-164) registers each handler for both `click` and
  `touchstart`. On a touch screen one tap can run a handler twice: two
  toggles, or two pops. The model has one transition per call, and a
  double call is two calls.
- `DebugOne.Debug`: the exception `debugOne` throws when no panel resolves is
  modelled as the result `None`. What the caller does with the exception is
  outside this file.
