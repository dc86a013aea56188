# next-toast documentation site: table of contents and page helpers

This project models, in Dafny, the logic of the next-toast documentation site
that is not UI:

- the docs pages' "On this page" table of contents (`DocsToc`);
- the landing page's pure helpers (`LandingPage`);
- the navigation bar's star-count formatter (`Navbar`).

`Strings` and `Seqs` model the JavaScript built-ins that code relies on:
`trim`, `includes`, `split`, `Number.prototype.toString`, `map` and `filter`.
`Wrappers` holds the `Option` type used for `null`, `undefined` and missing
elements.

**The table of contents.**

- Scanning and de-duplication:
  - A build reads the headings of the `docs-content` scope and trims their text.
  - A missing or empty `data-level` is read as `h2`.
  - Headings without an id or without visible text are dropped.
  - `uniqById` then keeps the first heading of each id.
- The active section is reconciled on every rebuild: the previous id is kept
  if it is still listed, otherwise the first entry's id is used, otherwise "".
- Scrolling and clicking:
  - The observer callback picks the intersecting heading nearest the top.
    Among headings at the same top, the earliest in the list wins.
  - A click makes its link active at once.
- The highlight bar is measured against the container. It becomes `ready` at
  the first successful measurement and stays ready afterwards.

The component is the class `DocsToc.Toc`. Its fields are `items`, `activeId`,
`indicator` and `itemRefs`, and its methods are the callbacks that change them.

**The landing page.**

- `parseRepo` accepts an "owner/name" pair (the regular expression
  `^[\w-]+\/[\w.-]+$`) or a URL whose path has at least two non-empty
  segments.
- The URL branch joins any two non-empty path segments. Its result is a
  single-slash pair (one "/" with non-empty text on both sides) but need not
  match the pattern: the path `/a.b/c` gives `a.b/c`.
- The repository falls back to `rimu-7/next-toast`. The GitHub link is that
  repository's page.
- Each package manager has its own install command.
- The configuration snippets follow the two switches.
- The position card falls back to the `top-center` example.

Two behaviours of the code are easy to miss:

- **`ready` is never reset.** Once the bar has been measured, it stays
  visible at its last measured place through every rebuild: no code path in
  components/docs/docs-toc.tsx:33-61 sets `ready` back to false. `Measure`
  ensures `old(indicator.ready) ==> indicator.ready`, and `Build` does not
  touch `indicator`.
- **9951–9999 stars render as "10.0k".** `toFixed(1)` rounds them up to ten
  thousand, while 10000 renders as "10k". `Navbar.FormatStars` allows an
  integer part of 10 in the four-digit band for this reason. The model's
  body rounds halves up, so it renders 9950 the same way; JavaScript renders
  9950 as "9.9k" (see "Left out").

## Model

| member | source | states |
|---|---|---|
| Strings.Trim | app/page.tsx:35 | `s.trim()` sits at some index of `s` with only whitespace before and after it; it is empty exactly when `s` is all JavaScript whitespace; otherwise its first and last characters are not whitespace |
| Strings.Includes | app/page.tsx:476 | `s.includes(sub)` holds exactly when `sub` occurs at some index of `s` |
| Strings.Split | app/page.tsx:38 | `split("/")` yields at least one piece; no piece contains the separator; joining the pieces gives back the string |
| Strings.SplitJoin | app/page.tsx:38 | splitting a join of separator-free pieces gives back exactly those pieces, so `split` is the unique such decomposition |
| Strings.NatToDecimal | components/navbar.tsx:13 | `count.toString()` is a non-empty digit string with no leading zero that denotes `count` |
| Seqs.Map | components/docs/docs-toc.tsx:45-49 | `map` gives one result per input element, the function applied to the element at the same index |
| Seqs.Filter | components/docs/docs-toc.tsx:50 | `filter` keeps exactly the elements that satisfy the predicate, in order (a subsequence), each as many times as it occurs in the input |
| Seqs.FilterKeepsAll | components/docs/docs-toc.tsx:50 | filtering a list whose elements all pass gives back the list |
| Seqs.SubseqSnoc | components/docs/docs-toc.tsx:12-16 | appending an element to the input keeps a subsequence a subsequence, with or without that element |
| DocsToc.LevelOf | components/docs/docs-toc.tsx:48 | a missing or empty `data-level` reads as "h2"; a non-empty one is kept; the level is never empty |
| DocsToc.ToItem | components/docs/docs-toc.tsx:45-49 | a heading's entry keeps its id, has the trimmed text and the `data-level` level (default "h2"); the text is empty exactly when the heading's text is blank, and otherwise starts visibly |
| DocsToc.ScanHeadings | components/docs/docs-toc.tsx:42-50 | every scanned entry has an id, a level and non-blank trimmed text; entries keep document order; every heading with an id and visible text is listed; each listable entry is kept as many times as it was scanned and nothing else is |
| DocsToc.IdSetMembership | components/docs/docs-toc.tsx:11-14 | the `seen` set after a prefix holds exactly the non-empty ids that occur in it |
| DocsToc.FirstOccurrences | components/docs/docs-toc.tsx:10-17 | `uniqById` returns no more items than it is given, none with an empty id (its full characterisation is `FirstOccurrencesSpec`) |
| DocsToc.FirstOccurrencesSpec | components/docs/docs-toc.tsx:10-17 | `uniqById`'s result has no empty id and no repeated id, is a subsequence of the input with the same set of ids, keeps the first item of each id, and orders the items by where their id first occurs |
| DocsToc.FirstIndex | components/docs/docs-toc.tsx:10-17 | the index of the first item with a given id, or the length when there is none: no earlier item has that id |
| DocsToc.FirstOccurrencesOrder | components/docs/docs-toc.tsx:10-17 | the kept items appear in the order in which their ids first occur in the input |
| DocsToc.FirstOccurrencesKeepFirst | components/docs/docs-toc.tsx:13-15 | each kept item is the first item of the input with its id |
| DocsToc.FirstOccurrencesOfDistinct | components/docs/docs-toc.tsx:10-17 | a list whose ids are already distinct and non-empty passes through unchanged |
| DocsToc.UniqById | components/docs/docs-toc.tsx:10-17 | the `seen`-set loop computes the first occurrences: non-empty, distinct ids, input order, same id set |
| DocsToc.Reconcile | components/docs/docs-toc.tsx:58-60 | the previous id is kept when still listed; otherwise the first entry's id, or "" for an empty list; the result is "" or a listed id; for non-empty ids it is "" exactly when the list is empty |
| DocsToc.ReconcileIdempotent | components/docs/docs-toc.tsx:58-60 | reconciling an already reconciled id changes nothing |
| DocsToc.BuildItems | components/docs/docs-toc.tsx:42-52 | a build's list is well formed (listable entries, distinct ids), a subsequence of the scanned headings with the same set of ids, keeps the first scanned entry of each id, and orders them by first occurrence |
| DocsToc.BuildItemsIdempotent | components/docs/docs-toc.tsx:52 | de-duplicating a built list again gives the same list |
| DocsToc.BuildItemsOfDistinct | components/docs/docs-toc.tsx:42-52 | when every heading has an id and visible text and no id repeats, the list is every heading's entry, in document order |
| DocsToc.OneActiveLink | components/docs/docs-toc.tsx:165-166 | in a well-formed list a listed active id marks exactly one link as active |
| DocsToc.ReconcileActiveLink | components/docs/docs-toc.tsx:58-60 | after a rebuild with a non-empty well-formed list exactly one link is active, whatever the previous id |
| DocsToc.InsertByTop | components/docs/docs-toc.tsx:86-89 | inserting adds exactly one copy of the entry (multiset) and takes nothing else; the entry goes first when the list is empty or its head is not above it, otherwise the head stays first |
| DocsToc.InsertByTopPlacement | components/docs/docs-toc.tsx:86-89 | the entry is spliced in at some index: every entry before it is strictly above it and the entry after it is not above it |
| DocsToc.InsertByTopSorted | components/docs/docs-toc.tsx:86-89 | insertion into a list sorted by top keeps it sorted |
| DocsToc.SortedCons | components/docs/docs-toc.tsx:86-89 | a list is sorted by top exactly when its head is no lower than any later entry and its tail is sorted |
| DocsToc.VisibleByTop | components/docs/docs-toc.tsx:84-89 | the sorted visible list holds every intersecting entry as many times as it occurs and no other entry, ordered by top |
| DocsToc.SortByTop | components/docs/docs-toc.tsx:86-89 | the sort is a permutation of its input and is ordered by top |
| DocsToc.NearestFirst | components/docs/docs-toc.tsx:84-91 | the first of the sorted intersecting entries is the earliest intersecting entry nearest the top |
| DocsToc.NearestExists | components/docs/docs-toc.tsx:84-91 | if any entry intersects, an earliest-nearest one exists |
| DocsToc.Candidate | components/docs/docs-toc.tsx:84-91 | a candidate id belongs to an intersecting entry (its full characterisation is `CandidateSpec`) |
| DocsToc.CandidateSpec | components/docs/docs-toc.tsx:84-91 | there is no candidate exactly when nothing intersects; otherwise the candidate is the earliest intersecting entry nearest the top |
| DocsToc.Toc.Renders | components/docs/docs-toc.tsx:140 | the component renders exactly when the list is non-empty; in a valid state, exactly when there is an active id |
| DocsToc.Toc.constructor | components/docs/docs-toc.tsx:22-31 | the initial state is an empty list, no active id, a zero, not-ready indicator and no link refs, which satisfies the invariant |
| DocsToc.Toc.Build | components/docs/docs-toc.tsx:33-61 | with no scope the list and active id are cleared and the refs are kept; otherwise the list is the de-duplicated scan, the active id is reconciled, the refs are reset, and the invariant holds |
| DocsToc.Toc.Intersect | components/docs/docs-toc.tsx:84-92 | when nothing intersects the active id is unchanged; otherwise it becomes the earliest intersecting heading nearest the top; the invariant holds |
| DocsToc.Toc.Click | components/docs/docs-toc.tsx:175-176 | the clicked entry becomes the active one and the invariant holds |
| DocsToc.Toc.RegisterLink | components/docs/docs-toc.tsx:171-174 | a mounted link is recorded under its id; an unmounting call changes nothing |
| DocsToc.Toc.Measure | components/docs/docs-toc.tsx:110-125 | without a container, an active id or its link, nothing changes; otherwise the bar moves to the link's offset from the container and becomes ready; a ready bar stays ready |
| Navbar.ThousandsToFixed1 | components/navbar.tsx:14 | `(count / 1000).toFixed(1)` has the form digits "." digit with no leading zero in the integer part, and its value in tenths is within half a tenth of `count / 1000` |
| Navbar.FormatStars | components/navbar.tsx:12-16 | below 1000 the count in full, without leading zeros; from 1000 a trailing "k" (and only then); below 10000 thousands with one decimal within half a tenth and no leading zero; from 10000 the nearest whole thousand without leading zeros |
| LandingPage.MatchesRepoPattern | app/page.tsx:35 | `/^[\w-]+\/[\w.-]+$/.test` accepts exactly owner characters, one slash, then name characters, both parts non-empty |
| LandingPage.MatchOwnerTailIff | app/page.tsx:35 | the matcher's owner-tail step accepts exactly the strings that split at a slash into owner characters and a non-empty name |
| LandingPage.ParseRepo | app/page.tsx:33-42 | a missing or empty input gives null; any result is a single-slash pair (one "/" with non-empty text on both sides); a trimmed input that matches the pattern is returned as is; one that does not match and that `new URL` refuses gives null |
| LandingPage.ParseRepoFromPath | app/page.tsx:36-39 | for a URL whose path is made of given segments, the result is the first two non-empty segments joined by "/", or null when there are fewer than two |
| LandingPage.UrlPairNeedNotMatch | app/page.tsx:36-40 | a URL whose pathname is `/a.b/c` gives `a.b/c`, a single-slash pair that the `owner/name` pattern refuses |
| LandingPage.RepoFromEnv | app/page.tsx:56-59 | the repository variable when set and non-empty; otherwise the URL variable when set and non-empty; otherwise the default URL; never empty |
| LandingPage.Repo | app/page.tsx:61-64 | the repository is always a single-slash pair (one "/" with non-empty text on both sides): the parsed value whenever parsing succeeds, the default one whenever it fails |
| LandingPage.RepoPrefersPair | app/page.tsx:56-64 | an "owner/name" value in the repository variable is the repository, whatever the URL variable holds |
| LandingPage.RepoUrl | app/page.tsx:65 | the link is the GitHub prefix followed by the repository, which can be read back from it |
| LandingPage.RepoLinkShape | app/page.tsx:65 | the GitHub link is the GitHub prefix followed by a single-slash pair (one "/" with non-empty text on both sides) |
| LandingPage.OwnerTailStops | app/page.tsx:35 | the pattern's owner part fails at the first character that is neither an owner character nor the slash |
| LandingPage.DefaultRepoUrlIsUrl | app/page.tsx:35 | the default URL does not match the "owner/name" pattern |
| LandingPage.SegmentsHaveOneSlash | app/page.tsx:39 | two non-empty, slash-free path segments joined by "/" form a single-slash pair (one "/" with non-empty text on both sides) |
| LandingPage.DefaultRepoLink | app/page.tsx:56-65 | with neither variable set the repository is `rimu-7/next-toast` and the link is the default URL, whether the URL is refused or its pathname is read |
| LandingPage.InstallCommand | app/page.tsx:78-87 | each command is its own manager's name, then the subcommand (`i` for npm, `add` for pnpm and bun), then the package name, separated by single spaces |
| LandingPage.InstallCommandsDistinct | app/page.tsx:78-87 | no two managers share a command |
| LandingPage.CloseButtonAttribute | app/page.tsx:133 | the `closeButton` attribute reads `{true}` exactly when the switch is on and `{false}` exactly when it is off |
| LandingPage.RichColorsAttribute | app/page.tsx:131 | `richColorsOrDefaultSnippet` reads `{true}` exactly when the switch is on and `{false}` exactly when it is off |
| LandingPage.CloseButtonSnippet | app/page.tsx:123-125 | the close-button snippet is the `NextToast` element around the `closeButton` attribute of the switch |
| LandingPage.RichColorsSnippet | app/page.tsx:127-129 | the rich-colors snippet is the `NextToast` element around the `richColors` attribute of the switch |
| LandingPage.BasicDefaultConfigSnippet | app/page.tsx:133 | the basic snippet is `<NextToast `, the switch's `closeButton` attribute, one space, the switch's `richColors` attribute, then ` />`; each attribute sits at the index that layout gives it |
| LandingPage.CloseButtonAttributeShown | app/page.tsx:123-133 | the close-button snippet and the basic snippet both contain the `closeButton` attribute of the switch |
| LandingPage.RichColorsAttributeShown | app/page.tsx:127-133 | the rich-colors snippet and the basic snippet both contain the `richColors` attribute of the switch |
| LandingPage.BasicSnippetInjective | app/page.tsx:131-133 | different switch positions give different basic snippets |
| LandingPage.PositionSnippet | app/page.tsx:464 | a position button's snippet is `<NextToast position="`, the position at index 21, then `" />` |
| LandingPage.PositionCode | app/page.tsx:476-478 | the shown code always contains `<NextToast`; it is the last snippet when that contains the tag, else the `top-center` fallback |
| LandingPage.PositionSnippetShown | app/page.tsx:464 | after a position button is pressed, its own snippet is shown |

## Left out

- The toast engine itself (queueing, timers, rendering) is not part of this model.
- The timing of the component's effects is left out: the deferred `build`, the 50 ms re-measure, the resize listener and effect cleanup. Each callback is modelled as one method, called in any order.
- IntersectionObserver wiring is left out: the root, the root margin, the thresholds and which elements are observed. `Intersect` takes the entries a callback receives.
- `DocsToc.Toc.Intersect`: requires every entry to name a listed heading, because the observer only watches the current entries' headings.
- The observer's `boundingClientRect.top ?? 0` fallback is left out. The top is always present in the model.
- Geometry is in whole pixels, not floating-point numbers.
- `itemRefs`: the real map holds link elements. Their position is read when `updateIndicator` runs. The model stores each link's box as it was when the link was registered.
- The click handler's `setTimeout(updateIndicator, 0)` is left out. It runs the measurement of the previous render, so its effect depends on the framework's scheduling.
- `new URL(...)`: WHATWG URL parsing is not modelled. `ParseRepo` takes it as a parameter that maps a string to its pathname, or to None when the constructor throws.
- Fetching the star count, the clipboard, theme, tabs and all layout and styling are left out.
- `Navbar.ThousandsToFixed1`: `toFixed(1)` rounds the exact binary value of `count / 1000`, so whether a tie such as 1050, 1150 or 9950 goes up or down depends on floating point (9950 gives "9.9"). The model's body rounds every tie up. The contract only bounds the result within half a tenth, which holds either way.
- `Navbar.FormatStars`: inherits that rounding, so the model renders 9950 as "10.0k" where JavaScript gives "9.9k"; the contract allows both.
- `DocsHeading` (components/docs/docs-heading.tsx:12-18) only stamps `id`, `data-docs-heading` and `data-level` on a heading. It appears in the model as the `HeadingEl` the scanner reads.
