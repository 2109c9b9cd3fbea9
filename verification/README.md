# Documentation viewer: navigation state machine

This project models the `App` component of a static documentation viewer
(src/App.tsx). On mount the component fetches a configuration: a document
title and an ordered list of pages, each with an id, a title and markdown
content. It then shows one page at a time. The user moves through the pages
with "previous" and "next" buttons or with a side menu that lists every page.

The component keeps four pieces of state: `config`, `currentPage` (an index
into the pages), `menuOpen` and `loading`. The model has three modules:

- `DocModel` (model.dfy) holds the state as a value (`View`) and each handler
  as an `Event`. `Step` says what a handler does to the state. The functions
  `Content`, `PrevButton`, `NextButton` and `DocumentTitle` give what is on
  screen. Lemmas state what each handler does on its own.
- `DocTraces` (traces.dfy) covers whole sequences of handler calls (`Run`).
  Its lemmas are proved by induction: the invariant holds in every reachable
  state, loading is one-way, the configuration is replaced at most once, and
  repeated presses stop at the ends.
- `DocApp` (app.dfy) is the component as an object. The four state hooks are
  fields of class `App`, and each handler is a method that updates them. Every
  method is tied to `Step` by its postcondition.

The invariant (`DocModel.Invariant`) has two parts. If there are no pages,
the index is 0, which is outside the empty range of pages. If there are
pages, the index is a position in them. In addition, while `loading` holds,
the configuration is still the default one (`"Documentation"`, no pages)
and the menu is closed. That second part is why a successful load keeps the index invariant: the
source never resets `currentPage`, but the index is still 0 when the load
arrives.

`DocModel.Enabled` says when each handler can run. The request is issued
once, by an effect with no dependencies, and settles once, with success or
failure, so both load events need `loading`. Until the request settles, the
component renders only a loading message and no buttons, so the user
handlers need `loading` to be over. A menu entry exists only while the menu
is open and only for a position in `pages`, because the entries are built by
enumerating `pages`. `Next` and `Prev` check their own bounds. The methods
of class `App` have the same preconditions.

## Model

| member | source | states |
|---|---|---|
| `DocModel.Step` | src/App.tsx:25-99 | loading never turns back on, and is over after any handler that can run; only a successful load changes the configuration; every handler that can run keeps the invariant |
| `DocModel.Enabled` | src/App.tsx:25-99 | a load event (success or failure) can arrive only while loading, since there is one request; next, previous and the menu button can run only once loading is over, since the loading screen (lines 56-64) has no buttons; `Select(i)` needs loading over, the menu open (line 91) and `i` a position in `pages`; every other handler is always enabled once loading is over |
| `DocModel.DocumentTitle` | src/App.tsx:40-42 | the document title is the configuration's title, so in any valid state still loading it is "Documentation" |
| `DocModel.Content` | src/App.tsx:149 | in a valid state with pages, the text shown is the content of the current page; with no pages it is the empty text |
| `DocModel.PrevButton` | src/App.tsx:158-168 | shown iff the index is above 0; in a valid state its caption is the previous page's title; hidden when there are no pages |
| `DocModel.NextButton` | src/App.tsx:170-180 | shown iff the index is below the last position; in a valid state its caption is the next page's title; hidden when there are no pages |
| `DocModel.NextClamps` | src/App.tsx:44-48 | next moves forward one page only when a later page exists, otherwise changes nothing (also at the end and with no pages); only the index changes; the invariant is kept; a second press at the end changes nothing |
| `DocModel.PrevClamps` | src/App.tsx:50-54 | previous moves back one page only when the index is above 0, otherwise changes nothing; only the index changes; the invariant is kept; a second press at 0 changes nothing |
| `DocModel.NextButtonMatchesNext` | src/App.tsx:170-177 | the next button is shown exactly when pressing next moves, and its caption is the title of the page next moves to |
| `DocModel.PrevButtonMatchesPrev` | src/App.tsx:158-165 | the previous button is shown exactly when pressing previous moves, and its caption is the title of the page previous moves to |
| `DocModel.SelectShowsPage` | src/App.tsx:93-99 | selecting entry i shows page i (its content and title) and closes the menu, keeping config and loading; selecting the current page only closes the menu |
| `DocModel.ToggleFlips` | src/App.tsx:81 | the menu button flips `menuOpen` and leaves config, index and loading alone; two presses restore the state |
| `DocModel.LoadedInstallsConfig` | src/App.tsx:28-32 | a successful load installs the parsed configuration unchanged, ends loading, keeps the index at 0 with the menu closed, and shows the first page with the second page's title on the next button |
| `DocModel.LoadFailedKeepsConfig` | src/App.tsx:34-37 | a failed load ends loading and keeps config, index and menu; from the first render this leaves an empty document titled "Documentation" with no buttons |
| `DocModel.EmptyPagesShowNothing` | src/App.tsx:149-180 | with no pages the text is empty, both buttons are hidden, and next and previous change nothing |
| `DocTraces.RunKeepsInvariant` | src/App.tsx:20-99 | every sequence of handlers that can run keeps the index invariant |
| `DocTraces.ReachableStatesAreValid` | src/App.tsx:20-23 | every state reachable from the initial state satisfies the invariant |
| `DocTraces.LoadingOneWay` | src/App.tsx:23-37 | after any run, the state is still loading iff it was loading before and no load success or failure occurred |
| `DocTraces.AtMostOneLoad` | src/App.tsx:25-38 | a run that can run holds at most one successful load, and none once loading is over |
| `DocTraces.NoLoadKeepsConfig` | src/App.tsx:20-31 | a run without a successful load leaves the configuration as it was |
| `DocTraces.ConfigIsTheLoadedOne` | src/App.tsx:28-32 | after a run that can run, the configuration is the one carried by its successful load |
| `DocTraces.TitleFollowsConfig` | src/App.tsx:40-42 | from the first render, the document title is "Documentation" until a load succeeds and the loaded title after that |
| `DocTraces.NextPresses` | src/App.tsx:44-48 | k presses of next land on min(index + k, last page), or stay at 0 with no pages; nothing else changes |
| `DocTraces.PrevPresses` | src/App.tsx:50-54 | k presses of previous land on max(index - k, 0); nothing else changes |
| `DocTraces.TwoPageWalk` | src/App.tsx:44-48 | with pages A and B, the first page is shown after loading, next shows B, and a further next changes nothing; that run can happen, while pressing the menu button before the load cannot |
| `DocApp.App.constructor` | src/App.tsx:20-23 | initial state: title "Documentation", no pages, index 0, menu closed, loading |
| `DocApp.App.LoadSucceeded` | src/App.tsx:28-33 | replaces the configuration with the parsed one, ends loading, keeps the index at 0 and the invariant |
| `DocApp.App.LoadFailed` | src/App.tsx:34-37 | while loading: ends loading and changes nothing else |
| `DocApp.App.NextPage` | src/App.tsx:44-48 | increments the index exactly when it is below the last position; changes only the index; keeps the invariant |
| `DocApp.App.PrevPage` | src/App.tsx:50-54 | decrements the index exactly when it is above 0; changes only the index; keeps the invariant |
| `DocApp.App.ToggleMenu` | src/App.tsx:81 | flips `menuOpen`; changes nothing else |
| `DocApp.App.SelectPage` | src/App.tsx:96-99 | with the menu open: sets the index to the chosen entry and closes the menu; the shown text is then that page's content |

## Left out

- The request for `/pages.toml` and the TOML parser (src/App.tsx:26-30) are network I/O and a foreign library. A load is one of two atomic events: success carrying an arbitrary `Config`, or failure.
- The parsed data is cast to `Config` without validation. The model types the configuration, so a file whose `pages` are missing or hold non-string fields is not modelled. With string content, `content || ''` is the content itself, since only the empty string is falsy.
- The promise chain and React's render scheduling are not modelled. Each handler is one atomic step, and the document title is a function of the state rather than an effect that runs after rendering.
- A second mount of the effect (as React's development mode does) would issue a second request. The model assumes one request, as a production mount does.
- The loading screen (src/App.tsx:56-64) is layout. The model keeps only the fact that it has no buttons, through `Enabled`.
- The markdown renderer with its plugins and element styles (src/App.tsx:113-150), the JSX layout, the background image, the icons and the console logging are presentation with no state.
- tailwind.config.js and vite.config.ts are build and styling configuration.
