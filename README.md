# Portfolio page behaviour, modelled in Dafny

The portfolio page's script (`scripts.js`) is mostly browser glue, but a few
decisions in it are plain logic. This project models those decisions and proves
what the page relies on:

- **Project gallery** (`ProjectManager`). The category filter keeps records in
  their order, and `"all"` keeps every record. A description is cut to 200
  characters plus `"..."`. A card gets a "Read More" button exactly when its
  description is longer than 200 characters. The GitHub and demo buttons are
  chosen from the record's links.
- **Read-more toggle**. A card's description and its button label switch
  between "Read More" and "Read Less". The record is looked up by the
  button's project id.
- **Active navigation link** (`NavigationManager`). `setActiveLink` marks at
  most one link. On scroll, the last section under the line `scrollY + 100`
  marks its link. If no section is under that line, nothing changes.
- **Double-tap suppression** (`MobileExperienceManager`). A `touchend` within
  300 ms of the previous one is prevented.
- **Anchor scrolling** (`SmoothScrollManager`). `#` is ignored. `#id` scrolls
  to 70 pixels above the element with that id.

Modules: `Wrappers` (Option), `Projects` (records, filter, truncation, button
choice, lookup by id; pure), `Gallery` (the `ProjectManager` class holding
the current filter, and the `DescriptionView` class for one card's
expandable text), `Navigation` (the `NavigationManager` class over an array
of active flags), `Anchors` (pure) and `Touch` (the guard class and a trace
function for a run of touch events).

The DOM is replaced by plain values:
- the link list is a sequence of `href` strings plus an `array<bool>` of `active` classes;
- sections are `(top, height, id)` triples of integers and an id;
- `getElementById(...).offsetTop` is a map from element id to offset;
- the clock reading `new Date().getTime()` is a parameter.

In three places the model follows the code's exact behaviour rather than
the simpler reading of it:
- **Link buttons.** They test JavaScript truthiness, not just "non-null". An
  empty URL string counts as absent (`Projects.Truthy`).
- **Link lookup.** `querySelector` returns the first link with
  `href="#id"`. If two links share the same `href`, only the first one is
  marked.
- **Descriptions of 203 characters ending in `...`.** Such a description
  still gets a "Read More" button, but truncation leaves its text unchanged
  (`Projects.TruncateFixpoint`).

## Model

| member | source | states |
|---|---|---|
| `Projects.Filter` | scripts.js:176-178 | `"all"` returns the list unchanged; any other value returns a subsequence of the list, no longer than it, whose records all have that category, and which holds every record of that category as often as the list does |
| `Projects.KeepCategory` | scripts.js:178 | `filter(p => p.category === c)`: only records of category `c`, in original relative order (a subsequence), every such record kept with its multiplicity, never a record added |
| `Projects.KeepCategoryIdempotent` | scripts.js:178 | filtering an already filtered list by the same category changes nothing |
| `Projects.KeepCategoryOfUniformList` | scripts.js:178 | a list whose records all have category `c` passes the filter for `c` unchanged |
| `Projects.Truncate` | scripts.js:219-222 | a description of at most 200 characters is shown whole; a longer one is shown as exactly 203 characters: its first 200, then `"..."` |
| `Projects.TruncateFixpoint` | scripts.js:219-222 | truncation leaves a description unchanged if and only if it has at most 200 characters, or has exactly 203 and ends in `"..."` |
| `Projects.GithubButtonFor` | scripts.js:206-210 | a GitHub link, to the record's URL, exactly when `github` is truthy; "Private Repo" otherwise |
| `Projects.DemoButtonFor` | scripts.js:212-216 | a demo link, to the record's URL, exactly when `demo` is truthy; no button otherwise |
| `Projects.CreateCard` | scripts.js:205-227 | the card keeps the record's id, category and title, shows the truncated text, has "Read More" if and only if the description exceeds 200 characters (`Projects.NeedsReadMore`, scripts.js:224) (equivalently: the shown text differs from it, or it is 203 long), and has the link buttons above |
| `Projects.FindProject` | scripts.js:255 | `find` by id: nothing if and only if no record has the id; otherwise the record with that id that comes first |
| `Gallery.Toggle` | scripts.js:257-271 | a click with label "Read Less" collapses to the truncated text and "Read More"; any other label expands to the full text and "Read Less"; the result is always one of those two states and the label always flips |
| `Gallery.ToggleTwice` | scripts.js:257-271 | from either of the two states, two clicks restore both the text and the label |
| `Gallery.RenderedCardStartsCollapsed` | scripts.js:219-227 | a rendered card with the button starts in the collapsed state; expanding changes its text unless the description already ends in `"..."` after character 200 |
| `Gallery.DescriptionView.constructor` | scripts.js:225-235 | a card with the button starts with the truncated text, the label "Read More" and the project's id |
| `Gallery.ProjectManager.constructor` | scripts.js:157 | the current filter starts as `"all"` |
| `Gallery.ProjectManager.RenderProjects` | scripts.js:176-190 | one card per record kept by the current filter, in order, each the card of that record; with `"all"` as many cards as records, otherwise only cards of the filtered category |
| `Gallery.ProjectManager.SelectFilter` | scripts.js:276-289 | a filter button click stores its value as the current filter and yields the cards for that filter |
| `Gallery.ProjectManager.ReadMoreClick` | scripts.js:251-274 | with a record found by the button's id, the view becomes `Toggle` of its old state for that record; with none, the handler fails before writing and the view is unchanged |
| `Gallery.TwoClicksRestore` | scripts.js:251-274 | with distinct ids, a freshly rendered long card clicked twice shows exactly its first text and label again |
| `Navigation.LastMatch` | scripts.js:63-77 | none if and only if no section covers the position; otherwise a section covering it (`Navigation.Covers`, the band test of scripts.js:72) after which no section covers it (the last one in document order) |
| `Navigation.LinkFor` | scripts.js:74 | `querySelector('.nav-link[href="#id"]')`: none if and only if no link has that href; otherwise the first link that has it |
| `Navigation.LinkFrom` | scripts.js:74 | the first index from `i` on whose href is the target, or none if and only if there is no such index |
| `Navigation.TiledMatchIsUnique` | scripts.js:63-77 | when sections follow one another without gaps or overlaps, the section covering the position is the one chosen |
| `Navigation.NavigationManager.constructor` | scripts.js:3-15 | after construction (which ends with `setActiveLink()`), no link is active |
| `Navigation.NavigationManager.SetActiveLink` | scripts.js:56-61 | afterwards the active links are exactly `{l}` when a link `l` is given, and none otherwise |
| `Navigation.NavigationManager.UpdateActiveLink` | scripts.js:63-77 | if some section covers `scrollY + 100`, afterwards exactly the link for the last such section is active (none if it has no link); if none does, every flag is as before |
| `Anchors.TargetId` | scripts.js:445 | the href is `#` followed by the id that is looked up |
| `Anchors.ResolveAnchor` | scripts.js:439-454 | `#` is ignored and keeps its default action; otherwise the default is prevented (`PreventsDefault`), and the window scrolls if and only if the element with the id after `#` exists, to its `offsetTop - 70` |
| `Anchors.LinkToIdResolves` | scripts.js:441-451 | for a non-empty id, `#id` scrolls to the element's offset minus 70, or prevents the default only, when the element is missing |
| `Touch.DoubleTapGuard.constructor` | scripts.js:565 | `lastTouchEnd` starts at 0 |
| `Touch.DoubleTapGuard.TouchEnd` | scripts.js:566-572 | a touch end is prevented if and only if `now - lastTouchEnd <= 300`, and `lastTouchEnd` is `now` afterwards |
| `Touch.Replay` | scripts.js:565-572 | over a run of touch ends, each is prevented if and only if it is within 300 ms of its predecessor (the first, of the starting time), and the last time is what remains |
| `Touch.ReplayStep` | scripts.js:566-572 | one more touch end extends the run's trace by exactly the step `TouchEnd` takes from the trace's last time |

## Left out

- Markup: the HTML the card template builds, `innerHTML`, `appendChild`, the tech tags and images. This is platform API. Only the decisions the markup carries are modelled (`Projects.Card`).
- `Projects.Truncate`: JavaScript's `length` and `substring` count UTF-16 code units, while Dafny's `string` counts Unicode scalar values. For characters outside the Basic Multilingual Plane the cut point differs.
- `Gallery.ProjectManager.ReadMoreClick`: `parseInt` of the `data-project-id` attribute is modelled as the integer id the card was rendered with, which is what it returns for the catalogue's integer ids. The thrown `TypeError` for an unknown id is modelled as `found == false` with nothing changed.
- The filter buttons' own `active` class, the mobile menu toggle, and the navbar background and scroll-to-top thresholds of 50 and 300 pixels. These are style writes with no decision beyond a comparison.
- `Navigation.NavigationManager.UpdateActiveLink`: scroll positions and offsets are integers here, but `scrollY` is a floating-point number in browsers. The handler's inline clear-and-mark is modelled by calling `SetActiveLink`, which has the same effect. A section id that would make the `.nav-link[href="#id"]` selector malformed (it throws in the browser) is not modelled.
- Gallery.TwoClicksRestore: the first render inserts the truncated description as HTML (scripts.js:188, 235), while a click writes text back as plain text (scripts.js:265, 269). The model treats both as the same plain string. So the restored text equals what was first shown only for descriptions with no HTML-significant characters (`<`, `&`). A description containing a tag or an entity, or one cut in the middle of an entity, first shows its parsed form and after two clicks shows the raw string.
- Gallery.DescriptionView.constructor: the first shown text is taken to be `card.text` itself, not its HTML-parsed form, for the same reason.
- Gallery.ProjectManager.SelectFilter: the filter is a string, but `getAttribute('data-filter')` (scripts.js:285) returns `null` for a button without the attribute. The source then keeps no record, since no category equals `null`. The model cannot express that value.
- Timers and animation: the 100 ms start delay, the stagger, `requestAnimationFrame`, the IntersectionObserver effects, lazy loading and preloading. These are asynchronous host callbacks.
- `ContactFormManager`, `AnalyticsManager`, console logging, touch-device detection, orientation handling and touch opacity feedback. These are I/O, timing or styling only.
- The literal catalogue of seven projects. Records are arbitrary values of `Projects.Project`.
