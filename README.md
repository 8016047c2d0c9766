# save-paper catalog, modelled in Dafny

save-paper is a one-page web app that keeps a reading list of arXiv papers in the browser.
The user pastes a link. The page takes the link's last `/`-separated segment as the arXiv
identifier and accepts it only if it is non-empty and holds exactly one `.`. It then fetches
the paper's Atom entry and appends a `Result` record to the in-memory list `global_data`,
unless a record with that identifier is already there. `render` writes the whole list to the
local-storage slot `"data"`, but only when the list is non-empty. `removePaper` drops every
record with a given identifier. At page load the list is read back from the slot, or starts
empty when there is no slot.

The model has five modules:

- `Wrappers`: `Option`, standing in for JavaScript's `undefined`.
- `JsString`: `String.prototype.split` on a one-character separator, with its inverse `Join`
  and the "part after the last separator" characterisation.
- `ArxivId`: identifier derivation (`DeriveId`), its exact characterisation, and the example
  links.
- `Records`: `Result`, the parsed arXiv response, and `filterData`.
- `Catalog`: the specification functions over the list (`Added`, `Without`, `Loaded`,
  `Persisted`, `LinkResult`) and their lemmas. It also holds the class `PaperCatalog`, whose
  fields are `global_data` (`papers`) and the `"data"` slot (`storage`). Its methods update
  those fields in place, as the script does.

## Behaviour as written

Three details of `script.js` (script.js:35-36, 93-98) are easy to misread. The model follows
the code as written:

- `final_id.replace(".pdf", "")` (script.js:36) throws its result away, because JavaScript
  strings are immutable. A link such as `…/2301.04567.pdf` keeps three `.`-parts and is
  rejected (`ArxivId.PdfLinkRejected`, `ArxivId.ExamplePdfLink`).
- `render` returns before `setItem` when the list is empty (script.js:93-96). So removing the
  last paper leaves the old list in the slot, and the paper is back after a reload
  (`Catalog.RemovedLastPaperReturnsOnReload`).
- The catalog holds papers only. There is no separate list of links, and no merge with
  another copy of the catalog. `script.js` never calls the key-value endpoint in `api/data.js`.

## Model

| member | source | states |
|---|---|---|
| `JsString.Split` | script.js:30 | `s.split(sep)` has one more part than `s` has separators, and no part contains the separator |
| `JsString.JoinSplit` | script.js:30 | splitting loses nothing: joining the parts with the separator gives the original string back |
| `JsString.LastPartOfSplit` | script.js:30-33 | the last element of `s.split(sep)` is the suffix after the last separator (or all of `s` when it has none) |
| `JsString.LastPartUnique` | script.js:30-33 | that suffix is unique, so any separator-free suffix preceded by a separator (or equal to `s`) is the last part |
| `ArxivId.LastSegment` | script.js:30-33 | `url_split[url_split.length - 1]` is the part of the URL after its last `/`, unchanged |
| `ArxivId.WellFormed` | script.js:38 | an identifier passes the check exactly when it is non-empty and `id.split(".")` has two parts |
| `ArxivId.DeriveId` | script.js:30-41 | an accepted identifier has exactly one `.`, is non-empty and is the URL's last segment; a rejected URL's last segment is malformed; a URL that is empty or ends in `/` is rejected |
| `ArxivId.DeriveIdCharacterization` | script.js:30-38 | both directions: `url` yields `t` exactly when `t` is non-empty, has exactly one `.` and is the part of `url` after its last `/` |
| `ArxivId.AbsLinkAccepted` | script.js:30-38 | any prefix followed by `/` and a well-formed `/`-free identifier yields that identifier |
| `ArxivId.RejectedSegment` | script.js:30-41 | any prefix followed by `/` and a `/`-free segment that fails the check is rejected |
| `ArxivId.PdfLinkRejected` | script.js:35-38 | a `/`-free segment that contains a `.`, followed by `.pdf`, is rejected, because the `.pdf` strip is discarded |
| `ArxivId.DottedIdWellFormed` | script.js:38 | two dot-free halves joined by one `.` pass the two-part check |
| `ArxivId.ExampleAbsLink` | script.js:30-41 | `https://arxiv.org/abs/2301.04567` yields `2301.04567` |
| `ArxivId.ExamplePdfLink` | script.js:30-41 | `https://arxiv.org/pdf/2301.04567.pdf` is rejected |
| `ArxivId.ExampleNotAPaper` | script.js:30-41 | `https://example.com/not-a-paper` is rejected |
| `Records.FilterData` | script.js:25-27 | a record exists exactly when the response has a feed; its key is always the caller's identifier and its link the typed link; it carries the feed's entry, possibly absent |
| `Catalog.Ids` | script.js:51 | `global_data.map(a => a.id)` has one identifier per record, in order |
| `Catalog.Added` | script.js:45-52 | a failed fetch adds nothing; a record whose identifier is already present leaves the list unchanged, and otherwise it is appended as given at the end; earlier records keep their places, and afterwards the identifier is present |
| `Catalog.Without` | script.js:132 | a record survives `filter` exactly when it was present and its identifier differs from the removed one |
| `Catalog.Loaded` | script.js:22 | the startup load falls back to the empty list: an absent slot gives `[]`, a present one its contents |
| `Catalog.Persisted` | script.js:93-98 | after `render`, a non-empty list reads back from the slot as itself, and an empty list leaves the slot untouched |
| `Catalog.QueryUrl` | script.js:43 | the request is arXiv's query endpoint followed by the identifier unchanged |
| `Catalog.QueryUrlInjective` | script.js:43 | different identifiers are sent as different requests |
| `Catalog.LinkResult` | script.js:29-49 | a link with no well-formed identifier produces no record; otherwise no record is produced exactly when the request to `QueryUrl(id)` fails or its document has no feed; a produced record is keyed by the derived identifier, keeps the typed link and carries the fetched entry |
| `Catalog.AddedIdempotent` | script.js:51-52 | adding the same fetch outcome twice equals adding it once |
| `Catalog.AddedPreservesUniqueIds` | script.js:51-52 | if identifiers are pairwise distinct before an add, they are after it |
| `Catalog.WithoutConcat` | script.js:132 | removal works piecewise over a concatenation, so the kept records stay in their original order |
| `Catalog.WithoutAbsent` | script.js:132 | removing an identifier that is not present leaves the list exactly unchanged |
| `Catalog.WithoutIdempotent` | script.js:132 | removing twice equals removing once |
| `Catalog.WithoutPreservesUniqueIds` | script.js:132 | removal keeps identifiers pairwise distinct |
| `Catalog.RemoveUndoesAdd` | script.js:132 | removing a freshly added identifier restores the list as it was before the add |
| `Catalog.SameIdNotAddedTwice` | script.js:29-52 | once a link's paper is catalogued, a link with the same derived identifier adds nothing, whatever its fetch returns |
| `Catalog.LoadedPersisted` | script.js:22 | reading the slot back after persisting a non-empty list gives that list |
| `Catalog.PersistedLoaded` | script.js:22 | the startup `render` leaves the slot exactly as it found it, whether absent, empty or filled |
| `Catalog.RemovedLastPaperReturnsOnReload` | script.js:93-96 | removing the only paper empties the list but keeps the slot, so a reload brings the paper back |
| `Catalog.PaperCatalog.constructor` | script.js:22 | at page load the list is the slot's contents, or empty when the slot is absent; the slot is unchanged afterwards; a non-empty list mirrors the slot |
| `Catalog.PaperCatalog.Render` | script.js:92-98 | the list is unchanged; the slot becomes the whole list when it is non-empty and is otherwise neither erased nor overwritten |
| `Catalog.PaperCatalog.AddResult` | script.js:51-52 | the new list is `Added(old list, outcome)`; the slot is rewritten only when something was appended; distinct identifiers and the slot-mirrors-list invariant are preserved |
| `Catalog.PaperCatalog.GetLinkResult` | script.js:29-53 | the list becomes `Added(old list, LinkResult(url, fetch))`; the user is alerted exactly when no record was produced, and then nothing changes; the slot is rewritten exactly when something was appended; distinct identifiers and the mirror invariant are preserved |
| `Catalog.PaperCatalog.RemovePaper` | script.js:129-134 | the new list is `Without(old list, id)`; the slot follows the `render` rule; distinct identifiers are preserved, and a non-empty list mirrors the slot |

## Left out

- DOM work is not modelled because it is UI: `getBlockHTML`, `paperCardClick`, the click
  listeners and their wiring loop, and every `innerHTML` write (script.js:1-3, 55-90, 100-127).
- The network fetch and `XMLParser` are foreign code. They become the parameter
  `fetch: string -> Option<Document>`, an arbitrary function of the query URL. None stands
  for a rejected request or a response body that fails to parse. A non-2xx response is not
  a failure in JavaScript: it is whatever document its body parses to.
- `alert` and `console` are only reported: `GetLinkResult` returns whether the user is alerted.
- `new URL(link)` validation in the click handler (script.js:65) is browser behaviour the
  model cannot see. `GetLinkResult` accepts any string.
- `JSON.stringify` and `JSON.parse` of the slot are modelled as storing the list itself.
  A missing `data` field is dropped on write and read back as `undefined`, so nothing changes.
  A slot holding malformed JSON, or JSON that is not a list, is not modelled.
- `url.includes("pdf")` (script.js:35) is not modelled, since the branch it guards has no effect.
- `localStorage.setItem` throwing, for example when the storage quota is exceeded
  (script.js:98), is not modelled. In that case the list is appended but the slot is not
  rewritten, so the slot no longer mirrors the list (`Catalog.PaperCatalog.Mirrored`).
- `getLinkResult` is asynchronous. Two calls in flight may interleave their fetches, but each
  append runs to completion in one turn. The model treats each call as one atomic step.
- JavaScript strings are UTF-16 code units; `char` sequences stand in for them.
- `api/data.js` is not part of this model. It only forwards `GET` and `POST` to a
  key-value store, and `script.js` never calls it.
