# Active-section tracking and code-block rendering for the Makefile tutorial site

The site is built by a chain of off-the-shelf Metalsmith plugins. Two pieces of
logic in it are its own, and this project models both in Dafny:

- **The active-section tracker** (`newer_design/src/index.js`). When the page
  loads, the script ranks every heading of the content by document order. An
  intersection observer then reports headings entering and leaving the viewport.
  The script keeps the ids that are in view. After every reported entry it picks
  the in-view id with the smallest rank and moves the `active` class of the
  sidebar to that heading's link. Module `ActiveSection` (`active_section.dfy`)
  holds the rank table (`HeaderOrder`, built by the loop `GetHeaderOrder`), the
  argmin (`LowestHeader`, computed by the loop `GetLowestHeader`) and the
  callback state as class `Tracker`. The class has fields for the in-view keys,
  the current id and the sidebar's active flags. `OnEntry` handles one observer
  entry and `OnEntries` handles one callback batch.
- **The code-block renderer** (`build.js`, `renderer.code`). This is the
  override of the Markdown renderer's `code` hook. It turns runs of four spaces
  into tabs, takes the language from the first word of the info string, and may
  substitute the highlighter's markup. It then wraps the body in
  `<pre><code>`, adding an `hljs <lang>` class when there is a language. Module
  `CodeRenderer` (`code_renderer.dfy`) models it as pure functions. The
  highlighter and the function bound to the free name `escape` (build.js:34,40,42)
  are function parameters.

The DOM is plain data:

- the headings are their ids in document order, as a `seq<string>`;
- the sidebar is a `map<string, bool>` from a link's target id to whether its
  list item carries `active`, and an id with no key has no link;
- an observer entry is an id together with whether its intersection ratio is
  above zero.

The in-view dictionary is a sequence of ids kept in insertion order without
duplicates.

Two facts about the code shape the tracker model:

- The callback recomputes the lowest heading after every entry of a batch
  (newer_design/src/index.js:39 is inside `forEach`), and `OnEntries` calls
  `OnEntry` once per entry. The batch as a value is `Run`, the fold of the
  one-entry transition `Step`.
- The code does not keep exactly one link active. It only guarantees that if at
  most the current id's link is active before an update, the same holds after
  it (`Tracker.OnEntry`). When that holds and the current id changes, the link
  for the new current id, if there is one, is the only active link; while the
  current id has no link, no link is active. For `""` that means while the
  sidebar has no `a[href="#"]` link: the source looks that selector up like any
  other and marks it active, and so does the model. A link other than the
  current id's link that was already active keeps its flag unless it becomes
  current (`RunKeepsOtherLinks`). An active `a[href="#"]` link, which belongs to
  the initial current id `""`, loses its flag at the first change.

## Model

| member | source | states |
|---|---|---|
| `ActiveSection.HeaderOrder` | newer_design/src/index.js:1-10 | The keys are exactly the heading ids. The rank of an id is a position that holds that id, and every position holding it is at or before the rank. So a later duplicate overwrites an earlier one. |
| `ActiveSection.GetHeaderOrder` | newer_design/src/index.js:1-10 | The loop with a running count builds exactly the table `HeaderOrder` describes. |
| `ActiveSection.UniqueIdsRankedInOrder` | newer_design/src/index.js:4-8 | With unique ids, the heading at position i has rank i, and the set of ranks is exactly 0 .. N-1. |
| `ActiveSection.HeaderOrderInjective` | newer_design/src/index.js:5-7 | No two ids share a rank. |
| `ActiveSection.LowestHeader` | newer_design/src/index.js:12-22 | What the function returns: `""` or an in-view id with a rank below 99999. Which one is given by `LowestHeaderIsFirstMinimum` (the first in-view id reaching the smallest rank) and `LowestHeaderWhenNoneRanked` (`""` when no in-view id is ranked). |
| `ActiveSection.ScanLowest` | newer_design/src/index.js:12-22 | The loop's running minimum never exceeds 99999, and while it is still 99999 the result is `""`. Otherwise the result is an in-view id that has a rank equal to the minimum. No in-view id with a rank is below the minimum. |
| `ActiveSection.LowestHeaderWhenNoneRanked` | newer_design/src/index.js:13-21 | When no in-view id has a rank below 99999 (in particular when nothing is in view), the result is `""` and the minimum stays at 99999. |
| `ActiveSection.LowestHeaderIsFirstMinimum` | newer_design/src/index.js:15-20 | When some in-view id has a rank below 99999, the result is the first in-view id that reaches the smallest rank. Ids without a rank are never selected. |
| `ActiveSection.NothingInView` | newer_design/src/index.js:13-21 | An empty view yields `""`. |
| `ActiveSection.FirstMinimumUnique` | newer_design/src/index.js:16-19 | With the strict `<`, the first-minimum position is unique, so the result is determined. |
| `ActiveSection.LowestHeaderDependsOnlyOnSet` | newer_design/src/index.js:39-42 | With the injective ranks of the page's table, the selected id depends only on the set of in-view ids, not on the order `Object.keys` lists them in. |
| `ActiveSection.GetLowestHeader` | newer_design/src/index.js:12-22 | The argmin loop (running `min` and `ret`, strict `<`) returns exactly `LowestHeader`. |
| `ActiveSection.Remove` | newer_design/src/index.js:37 | Deleting a key: the result holds every other id and not the deleted one, keeps the ids distinct, and is the input itself when the id was absent. |
| `ActiveSection.Visit` | newer_design/src/index.js:33-38 | An entry with ratio > 0 puts its id in view. An entry with ratio <= 0 takes it out. No other id's membership changes, and the ids stay distinct. |
| `ActiveSection.VisitIdempotent` | newer_design/src/index.js:34-38 | Delivering the same entry twice in a row changes nothing the second time. |
| `ActiveSection.ApplyAll` | newer_design/src/index.js:32-38 | The in-view updates of a batch, entry by entry. Specified by `InViewFollowsLastEvent` (an id is in view exactly when its last entry said so) and `ApplyAllDistinct`. |
| `ActiveSection.InViewFollowsLastEvent` | newer_design/src/index.js:32-38 | After any sequence of entries, an id is in view exactly when its most recent entry had ratio > 0. An id with no entry keeps its earlier membership. |
| `ActiveSection.ApplyAllDistinct` | newer_design/src/index.js:32-38 | Processing entries never lists an id twice among the in-view keys. |
| `ActiveSection.MoveActive` | newer_design/src/index.js:44-56 | Moving the marker keeps the set of links. The new id's link, if present, is active. The old id's link, if present and different, is not. Every other link is untouched, and a missing link is a no-op. |
| `ActiveSection.MoveActiveNarrows` | newer_design/src/index.js:44-56 | If only the old id's link could be active, then after the move the new id's link, if present, is the one and only active link. |
| `ActiveSection.Tracker.constructor` | newer_design/src/index.js:26-28 | The tracker starts with the rank table of the headings, nothing in view, current id `""` and the sidebar as given. |
| `ActiveSection.Tracker.OnEntry` | newer_design/src/index.js:33-58 | The new state is `Step` of the old one. The in-view keys are updated by `Visit`, and afterwards the current id equals `LowestHeader` of the table and the new keys. The sidebar is untouched when that id did not change. Otherwise the marker moves from the old id to the new one, as `MoveActive` describes. An entry that leaves the keys as they were changes nothing. "At most the current link is active" is preserved, and so is "exactly the current link is active". |
| `ActiveSection.Tracker.OnEntries` | newer_design/src/index.js:31-60 | A batch is processed entry by entry: the whole new state (in-view keys, current id, sidebar flags) is `Run` of the old state over the entries. Afterwards the in-view keys are those of `ApplyAll`, the current id is the argmin of them, the set of links is unchanged, and the active-link invariants are preserved. |
| `ActiveSection.Step` | newer_design/src/index.js:33-58 | The callback's work for one entry: `Visit`, then `LowestHeader`, then `MoveActive` only when the result differs from the current id. Its properties are stated by `Tracker.OnEntry`, which is proved equal to it. |
| `ActiveSection.Run` | newer_design/src/index.js:32-59 | The `forEach` over a batch, as `Step` applied entry after entry. Specified by `RunTracksLowest` and `RunKeepsOtherLinks`. |
| `ActiveSection.RunTracksLowest` | newer_design/src/index.js:32-42 | After a batch the in-view keys are `ApplyAll` of the entries, and after a non-empty batch the current id is `LowestHeader` of those keys. The set of links never changes. |
| `ActiveSection.RunKeepsOtherLinks` | newer_design/src/index.js:43-57 | A link keeps its flag through a batch unless its id was current before the batch or became current after one of the batch's entries. |
| `ActiveSection.ScenarioRanks` | newer_design/src/index.js:1-10 | For headings h1, h2, h3 the ranks are 0, 1, 2. |
| `ActiveSection.ScenarioViews` | newer_design/src/index.js:32-38 | The entries of the scenario leave the in-view keys h2 h3, then h3, then none. |
| `ActiveSection.ScenarioValues` | newer_design/src/index.js:12-22 | With ranks h1 0, h2 1, h3 2: with h2 and h3 in view the lowest is h2, and with only h3 in view it is h3. |
| `ActiveSection.ScenarioScrollPastHeadings` | newer_design/src/index.js:31-59 | h2 and h3 enter, then h2 leaves, then h3 leaves. The current id goes h2, h3, `""`, and no link is left active. |
| `CodeRenderer.ConvertTabs` | build.js:23 | The `/ {4}/g` replace, scanning left to right. Specified by `ConvertTabsByRuns` (equal to the run-by-run reference) and `ConvertedHasNoFourSpaces`. |
| `CodeRenderer.SpaceRunConverts` | build.js:23 | A run of n spaces ending at a non-space or at the end converts to n / 4 tabs followed by n % 4 spaces. |
| `CodeRenderer.ConvertTabsByRuns` | build.js:23 | The left-to-right replace of four spaces by a tab equals the run-by-run reference `ByRuns` on every input. Every maximal run of n spaces becomes n / 4 tabs and n % 4 spaces, and all other characters are unchanged and keep their order. |
| `CodeRenderer.ConvertedHasNoFourSpaces` | build.js:23 | After the conversion, no four consecutive characters are spaces. |
| `CodeRenderer.LeadingWord` | build.js:24 | The result is a prefix of the string and contains no white space. It ends at the string's end or right before a white-space character, so it is the longest such prefix. |
| `CodeRenderer.Lang` | build.js:24 | The language is the longest white-space-free prefix of the info string. A missing info string, an empty one or one starting with white space gives `""`. |
| `CodeRenderer.Highlighted` | build.js:25-31 | A substitution happens only when a highlighter is configured and returns a value that differs from the converted code it was given. That value is the substitution. In every other case there is none. |
| `CodeRenderer.RenderCode` | build.js:17-45 | Every output starts with `<pre><code`. Its 11th character is `>` exactly when the language is empty, so a class attribute appears only with a language. The output ends with `</code></pre>` when the language is empty, and with `</code></pre>` and a newline otherwise. |
| `CodeRenderer.HighlightedBodyNotEscaped` | build.js:25-44 | When the highlighter's output is present and differs from the converted code, that output is the body verbatim and is not escaped again, whatever `escaped` was. |
| `CodeRenderer.PlainBodyEscaped` | build.js:33-44 | Without a substitution, the output is the opening tag, then the converted code (escaped unless the caller marked it escaped), then the closing tag. The opening tag is `<pre><code>` for an empty language and `<pre><code class="hljs ` + escape(lang) + `">` otherwise. The closing tag has a trailing newline only with a language. |
| `CodeRenderer.PreEscapedBlockHasNoFourSpaces` | build.js:23-44 | Without a highlighter and with pre-escaped code, the body between the tags is the run-by-run conversion of the code and holds no four spaces in a row. |

## Left out

- Finding the headings (`document.querySelectorAll(".content h1, .content h2")`) and the links (`#left li a[href="#id"]`) is not modelled. The headings and the sidebar map are given as data. Only the first link per id is represented, since `querySelector` touches only the first.
- The link lookup builds a CSS selector from the id without escaping it (newer_design/src/index.js:45,52). The id sits inside a double-quoted CSS string. A double quote or a newline in an id makes the selector invalid and the lookup throws; a single quote is ordinary content there, and the lookup agrees with the model. A backslash is read as a CSS escape (`\b` is U+000B, and a trailing one escapes the closing quote), so the lookup silently misses the link and the source leaves it alone, while the model looks links up by the id itself and toggles them.
- `entry.target.getAttribute("id")` yields `null` for a heading without an id, which becomes the key `"null"`. The rank table uses `el.id`, which is `""` for such a heading. Observer entries in the model always carry a string id.
- JavaScript's object-key semantics are not modelled. For a heading with id `__proto__`, both `ret[el.id] = count` and `in_view[id] = true` reach the inherited `__proto__` setter, which ignores a number or a boolean, so no key is created and the prototype stays the same. So that heading never gets a rank and never enters the in-view keys, while the model treats it like any other id. Integer-like keys come first in `Object.keys`; this does not affect the result, by `LowestHeaderDependsOnlyOnSet`.
- `intersectionRatio` is reduced to the boolean "ratio > 0". How and when the observer delivers batches is not modelled, and neither is the `DOMContentLoaded` wiring.
- `escape` is a free name in build.js (lines 34, 40, 42): marked's own escaping helper is not in scope there. In Node it resolves to the global `escape`, which percent-encodes (a space becomes `%20`, `<` becomes `%3C`) rather than HTML-escaping, and ignores the second argument. The model takes whatever it resolves to as an uninterpreted parameter, with the second argument `true` folded in, so nothing is promised about what the escaped text looks like.
- `hljs.highlight` belongs to highlight.js and is an uninterpreted parameter. The configured highlighter (build.js:70-72) calls `hljs.highlight(lang, code)`, which throws for an empty or unknown language. The exception propagates out of `renderer.code`. The model's `Highlighter` is a total function and does not model this exception path.
- A highlighter that answers through a callback, or returns a non-string, is not modelled. Neither is a falsy info string that is not a string.
- JavaScript strings are UTF-16 code units and Dafny's characters are Unicode scalar values. The white-space set of `\s` is the ECMAScript one, listed in `IsSpace`.
- `build.js` lines 1-16 and 47-140, and all of `newer_design/build.js`, are Metalsmith pipeline configuration: drafts, markdown, table of contents, layouts, stylesheets, assets, serving and watching. They are calls into plugins, file-system I/O and a development server, with no logic of their own.
