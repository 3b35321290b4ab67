# Active-section tracker of the portfolio page

This project models the only behaviour in the one-page portfolio component
`IhsanPortfolio`: which of its five sections is *active*. The navigation bar
highlights the active section. A click on a nav button makes that section
active. Each scroll event makes active the first section, in declared order,
whose top lies in the upper half of the viewport. Everything else in the
component is static markup.

The model is functional and has four modules:

- `Sections` (`sections.dfy`): the registry of the five sections, each with an
  id and a title, in declared order. In the source the title field is `label`,
  but that is a reserved word in Dafny, so here it is `title`.
- `Tracker` (`tracker.dfy`): the two transitions, `Click` and `Scroll`. The
  state is the id string that the component keeps in `useState`. Two host reads
  become parameters:
  - `top: string -> real` gives each section anchor's bounding-rectangle top.
  - `viewportHeight: int` is `window.innerHeight`.

  Reals are exact, so the source's test `offset >= 0 && offset < innerHeight / 2`
  is written here as it stands. `Array.prototype.find` becomes the recursive
  first-index search `FindFrom`.
- `Nav` (`nav.dfy`): the navigation bar. It has one button per section, and a
  button is highlighted exactly when its id equals the active section.
- `Portfolio` (`portfolio.dfy`): the component as a state machine. It starts in
  `summary`, and `Run` folds a sequence of click and scroll events over that
  state.

The "active section is always one of the five ids" invariant is not built into
a type. It is proved: `Run`'s contract says so for every well-formed event
sequence.

The code does not guard a click on an unknown id: `sectionRefs[id]` would be
undefined and the handler would throw. It also does not guard an unmounted
ref. The model follows the code and treats a known id as a precondition of
`Click`. Clicks in the component come only from the buttons drawn from the
registry.

## Model

| member | source | states |
|---|---|---|
| `Sections.DeclaredOrder` | ihsan_portfolio.jsx:15-21 | the registry lists exactly summary, competencies, experience, achievements, languages, in that order |
| `Sections.Ids` | ihsan_portfolio.jsx:15-21 | the id list has one entry per declared section, position by position |
| `Sections.IdsDistinct` | ihsan_portfolio.jsx:15-21 | no two sections share an id, so an id names at most one section (and one nav button) |
| `Tracker.InUpperHalf` | ihsan_portfolio.jsx:33 | the predicate `offset >= 0 && offset < innerHeight / 2` holds exactly when the offset is non-negative and twice the offset is below the height |
| `Tracker.Measure` | ihsan_portfolio.jsx:29-32 | the measuring step: one id/offset pair per section in declared order; it claims no property beyond that |
| `Tracker.FindFrom` | ihsan_portfolio.jsx:33 | `find` returns the first index from `k` whose offset lies in `[0, height/2)`, no earlier index from `k` qualifies, and it returns nothing exactly when no index qualifies |
| `Tracker.Click` | ihsan_portfolio.jsx:23-26 | a click on a known section makes it the active section, and the result is a declared id whatever the prior state |
| `Tracker.Scroll` | ihsan_portfolio.jsx:28-35 | the first section in declared order whose top is in the upper half becomes active; if none is, the state is unchanged; the result is the prior state or a declared id |
| `Tracker.FirstMatchUnique` | ihsan_portfolio.jsx:33 | the first-match tie-break is unambiguous: at most one section is the first match |
| `Tracker.FirstMatchExists` | ihsan_portfolio.jsx:33 | if any section is in the upper half, then a first one in declared order exists |
| `Tracker.ScrollSelectsFirstMatch` | ihsan_portfolio.jsx:29-34 | when some section matches, the new active section is a declared, matching section with no earlier section matching |
| `Tracker.ScrollChangesOnlyOnMatch` | ihsan_portfolio.jsx:33-34 | the first match is written if and only if some section's top is in `[0, height/2)`, and the state can change only in that case |
| `Tracker.ScrollForgetsPrior` | ihsan_portfolio.jsx:33-34 | when some section matches, the outcome of a scroll does not depend on the prior state |
| `Tracker.ScrollIdempotent` | ihsan_portfolio.jsx:28-34 | two scroll events with the same geometry give the same state as one |
| `Tracker.ScrollUniqueMatch` | ihsan_portfolio.jsx:29-34 | when exactly one section's top is in the upper half, that section becomes active |
| `Tracker.ScrollExample` | ihsan_portfolio.jsx:28-35 | height 800 and tops -50, 150, 500, 900, 1200 give the window `[0, 400)`, so competencies becomes active |
| `Tracker.ClickExample` | ihsan_portfolio.jsx:23-26 | clicking languages while summary is active makes languages active at once |
| `Nav.Buttons` | ihsan_portfolio.jsx:51-54 | one button per section in declared order, with the section's id and title, highlighted if and only if its id equals the active section |
| `Nav.ExactlyOneHighlighted` | ihsan_portfolio.jsx:51-54 | for a known active id, exactly one button is highlighted, and it is that section's button |
| `Nav.NoneHighlightedForUnknown` | ihsan_portfolio.jsx:54 | a state that names no declared section highlights no button |
| `Portfolio.Step` | ihsan_portfolio.jsx:23-35 | one event keeps the state a declared id, and a click sets it to the clicked id |
| `Portfolio.Run` | ihsan_portfolio.jsx:6-35 | from the initial state, every sequence of clicks on known ids and scroll events leaves the active section one of the five declared ids |
| `Portfolio.InitialIsSummary` | ihsan_portfolio.jsx:6 | before any event, the active section is `summary`, the first declared section |
| `Portfolio.ClickOverridesHistory` | ihsan_portfolio.jsx:23-26 | after any history, a click on X leaves X active with exactly one nav button highlighted |
| `Portfolio.ClickThenScroll` | ihsan_portfolio.jsx:23-35 | after any history, a click on any section followed by a scroll with a match ends on that scroll's first match |
| `Portfolio.ClickThenScrollExample` | ihsan_portfolio.jsx:23-35 | clicking `languages` and then scrolling to the bottom (tops -1500, -1100, -500, 278, 560; height 800) leaves `achievements` active |
| `Portfolio.NonMatchingScrollKeepsState` | ihsan_portfolio.jsx:33-34 | after any history, a scroll with no section in the upper half leaves the state as it was |
| `Portfolio.ReachableHighlightsOne` | ihsan_portfolio.jsx:51-54 | in every reachable state, exactly one nav button is highlighted |

## Left out

- Listener registration and removal (ihsan_portfolio.jsx:37-40) are React lifecycle plumbing. Because of that, the absence of state updates after unmount is not modelled.
- The smooth-scroll animation (`scrollIntoView`, ihsan_portfolio.jsx:24) is not modelled as a motion of the viewport. It produces ordinary `Scrolled` events, and each of them can replace the clicked id (`Portfolio.ClickThenScroll`).
- Geometry reads (`getBoundingClientRect().top`, `window.innerHeight`) are parameters. IEEE double rounding is not modelled, and offsets are exact reals.
- Hook semantics (`useState`, `useRef`, ihsan_portfolio.jsx:6-13) are left out. The state is a plain value, and each event's effect on it is applied at once.
- Null or unmounted refs and clicks on unknown ids are left out. The source throws in both cases. The model makes a known id a precondition of `Click` and `Step`.
- No throttling or debouncing is modelled. Each scroll event is one transition.
- The markup, the static résumé text, the `Card` and `motion` components and the entrance animations (ihsan_portfolio.jsx:42-151) are left out. They are presentation only, and the two components come from external libraries.
- Button class strings are left out. The model keeps only whether a button carries the highlight style.
