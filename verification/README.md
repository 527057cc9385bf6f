# Rotate PDF pages — a Dafny model of the rotation and export pipeline

The web app shows the pages of an uploaded PDF, lets the user turn single
pages (or all of them) by clicking, and downloads a copy in which the turned
pages carry their new rotation. The logic lives in two near-identical React
components, `components/Container.tsx` and the simpler `app/page.tsx`. Each
keeps its state as values that React replaces wholesale: the per-page
rotation vector `rotate`, `numPages`, the picked `file`, the stored
`fileName`, a zoom width and, in `Container` only, a `loading` flag.
`app/page.tsx` also declares a `pageNumber` state that nothing reads or
updates; it is not modelled.

The model follows that structure:

- `js.dfy`, module `Js`: the JavaScript built-ins the handlers rely on.
  These are nullable values, the rendering of `null` inside string
  concatenation, `lastIndexOf` and `substring`, with JavaScript's clamping
  and swapping of bounds. Positions count Unicode characters rather than
  UTF-16 code units (see "Left out").
- `session.dfy`, module `Session`: the pure operations both components
  share, defined once:
  - the all-zero vector;
  - one page click and "Rotate all";
  - the fold of a click sequence;
  - the zoom steps;
  - the file stem;
  - the export step that writes rotations into the re-parsed document;
  - the output name.
- `container.dfy`, module `Container`: the full component. It has a state
  record, one pure transition per handler, an event type, `Step`/`Run`,
  and a reachable-state invariant proved for every run of events.
- `home_page.dfy`, module `HomePage`: the `app/page.tsx` variant. It has no
  loading flag and no load-error handler. Its "Rotate all" button has no
  click handler, so it has no rotate-all event.

The document that export re-parses is abstracted as the sequence of its
pages' original `/Rotate` values (section 7.7.3.3, Table 30, of ISO 32000-1).
Export is then a pointwise function of two sequences. A page whose entry is
non-zero gets exactly that entry, overwriting whatever the document held.
Every other page keeps its original value.

Behaviour the code has, which the model follows:

- **No reduction modulo 360.** Entries are never reduced modulo 360: four
  clicks leave 360, and a page holding 360 is still overwritten on export.
  "Rotate all" on `[0, 90, 180, 270]` gives `[90, 180, 270, 360]`.
- **A load error keeps the page state.** It clears `file`, `fileName` and
  `loading`, but leaves `rotate` and `numPages` as they were.
- **"Remove PDF" keeps the name and the flag.** It leaves `fileName` in
  place, and in `Container` it also leaves `loading`.
- **A missing extension gives an empty stem.** A name without a dot is
  stored as the empty stem, because `substring(0, -1)` clamps to
  `substring(0, 0)`.
- **A missing name renders as "null".** The download name is
  `fileName + "(rotated).pdf"`, and a `null` name renders as `"null"`.
  The reachable-state invariant shows this cannot happen when a file is
  present. In every reachable state with a file, the stored name is that
  file's stem.
- **A page without an entry stops the export.** The `forEach` runs over the
  re-parsed document's pages. For a page past the end of the vector,
  `rotate[i]` is `undefined`, which is `!== 0`, so it is handed to the
  library's `setRotation`. That call accepts only a number that is a
  multiple of 90 and throws otherwise, so nothing is saved. The model
  returns `RotateFailed` for this. In `app/page.tsx` it is reachable:
  "Download" is shown as soon as a file is picked, while the vector is
  still empty.

## Model

| member | source | states |
|---|---|---|
| Js.Render | components/Container.tsx:92 | a stored name is rendered as itself; a `null` name is rendered as the text "null" in the concatenation |
| Js.LastIndexOf | components/Container.tsx:53 | -1 exactly when the character does not occur; otherwise a position holding it with no occurrence after it |
| Js.Substring | components/Container.tsx:53 | with in-range ordered bounds it is the slice between them; a bound past the end is clamped to the end, so one in-range bound and one past the end give the rest of the string; two non-positive or two past-the-end bounds give the empty string; never longer than the input |
| Js.SubstringSymmetric | components/Container.tsx:53 | the result does not depend on the order of the two bounds, as `substring` swaps them |
| Session.Zeros | components/Container.tsx:25 | `new Array(n).fill(0)` has length n, every entry 0, and is a valid quarter-turn vector |
| Session.RotatePage | components/Container.tsx:57-61 | one click keeps the length, adds exactly 90 to entry i, leaves every other entry unchanged, keeps entries non-negative multiples of 90 |
| Session.RotateAll | components/Container.tsx:104-106 | keeps the length and adds 90 to each entry independently; keeps entries multiples of 90 |
| Session.ClicksAccumulate | components/Container.tsx:57-61 | after any sequence of valid clicks, page j holds its start value plus 90 per click on j — exact accumulation, no mod 360 |
| Session.RepeatedClicksFromZero | app/page.tsx:48-52 | k clicks on page i of a fresh vector give 90·k on i and 0 on every other page |
| Session.RotateAllIsOneClickPerPage | components/Container.tsx:104-106 | "Rotate all" equals clicking each page once in order (independent reference for rotate-all) |
| Session.RotateAllKeepsDifferences | components/Container.tsx:104-106 | the difference between any two pages' entries is the same before and after "Rotate all" (no normalising to a common value) |
| Session.RotateAllDoesNotWrap | components/Container.tsx:104-106 | "Rotate all" on [0,90,180,270] yields [90,180,270,360], not a wrapped 0 |
| Session.ZoomIn | components/Container.tsx:69-72 | grows by one 50-pixel step or not at all, is a no-op exactly when the width is at least 500, keeps a width in [100,500] on the 50 grid |
| Session.ZoomOut | components/Container.tsx:74-77 | shrinks by one step or not at all, is a no-op exactly when the width is at most 100, keeps a width in [100,500] on the 50 grid |
| Session.ZoomInverse | components/Container.tsx:69-77 | inside the bounds, zoom-out undoes zoom-in and zoom-in undoes zoom-out |
| Session.FileStem | components/Container.tsx:53 | the stored name is a prefix of the upload name; with a dot, it is followed by a dot and no dot comes later; with no dot it is empty |
| Session.StemOfJoin | components/Container.tsx:53 | for an extension without dots, the stem of `stem.ext` is `stem` (dots inside the stem kept) |
| Session.StemExamples | app/page.tsx:44 | "report.pdf" gives "report", "scan.v2.pdf" gives "scan.v2", "README" gives "" |
| Session.ExportRotations | components/Container.tsx:86-90 | same page count as the document; a page with a non-zero entry gets that entry, a page with entry 0 keeps its original rotation |
| Session.ApplyExport | app/page.tsx:77-81 | the page-by-page `forEach` that conditionally overwrites yields exactly the pointwise export |
| Session.ExportUntouchedIsIdentity | components/Container.tsx:86-90 | an all-zero vector reproduces every original page rotation |
| Session.ExportOverwrites | components/Container.tsx:87-89 | a turned page's exported rotation is its entry whatever the document held (absolute set, not composed) |
| Session.ExportIdempotent | components/Container.tsx:86-90 | exporting the exported document again with the same vector changes nothing |
| Session.ExportWritesQuarterTurns | components/Container.tsx:88 | with quarter-turn entries and originals, every exported rotation is a non-negative multiple of 90 |
| Session.ExportAfterClicks | app/page.tsx:77-81 | a page clicked k>0 times exports as 90·k (360 after four clicks, still written); unclicked pages keep their original rotation |
| Session.QuarterTurnsWritable | components/Container.tsx:86-90 | a quarter-turn vector with an entry for every page never makes `setRotation` throw |
| Session.OutputName | components/Container.tsx:92 | the download name ends in "(rotated).pdf" and begins with the stored name, or is "null(rotated).pdf" when none is stored |
| Session.Export | components/Container.tsx:79-93 | no file: the read fails; unparsable bytes: the load fails; more pages than entries, or an entry not a multiple of 90: the rotation fails and nothing is saved; otherwise the saved pages are the export of the parsed rotations and the name is the stored name plus the suffix |
| Container.Init | components/Container.tsx:14-20 | the first state has a `null` page count, no file, no name, empty vector, width 300, not loading, and satisfies the invariant |
| Container.OnDocumentLoadSuccess | components/Container.tsx:22-26 | loading ends, numPages is set, the vector is numPages zeros; file, name and width unchanged; invariant kept |
| Container.OnDocumentLoadError | components/Container.tsx:28-32 | loading ends, file and name become null, vector, page count and width stay exactly as they were; invariant kept |
| Container.OnFileChange | components/Container.tsx:45-55 | with a first file: loading starts, the file is stored and the name becomes its stem; with no file the state is unchanged; invariant kept |
| Container.PageRotate | components/Container.tsx:57-61 | only entry `current` changes, by exactly +90; length and every other field unchanged; invariant kept |
| Container.RotateAllPages | components/Container.tsx:104-106 | every entry +90 independently, length and all other fields unchanged; invariant kept |
| Container.RemovePdf | components/Container.tsx:63-67 | file null, numPages 0, vector empty; name, loading flag and width untouched; invariant kept |
| Container.ZoomInView | components/Container.tsx:69-72 | only the width changes: below 500 it becomes width+50, at or above 500 it stays put; invariant kept |
| Container.ZoomOutView | components/Container.tsx:74-77 | only the width changes: above 100 it becomes width−50, at or below 100 it stays put; invariant kept |
| Container.DownloadPdf | components/Container.tsx:79-93 | read failure without a file, load failure on unparsable bytes, rotation failure when the document has more pages than entries or an entry a page reaches is not a multiple of 90, otherwise the saved pages are the pointwise export under the stored name plus "(rotated).pdf" |
| Container.DownloadNamesStem | components/Container.tsx:92 | in a reachable state with a file, a successful parse of at most \|rotate\| pages is saved under that file's stem plus "(rotated).pdf" |
| Container.StepKeepsInv | components/Container.tsx:22-106 | every handler keeps the invariant: vector length equals page count, entries are quarter turns, width in [100,500] on the 50 grid, stored name is the file's stem |
| Container.RunKeepsInv | components/Container.tsx:22-106 | every run of events from a state satisfying the invariant ends in one that satisfies it |
| Container.DownloadScenario | components/Container.tsx:79-93 | load two pages, click page 0 twice and page 1 once, download: pages at 180 and 90, named stem plus "(rotated).pdf" |
| Container.ReloadResets | components/Container.tsx:63-67 | load 3 pages, click, remove, load 5 pages: the vector is exactly five zeros and numPages is 5 |
| HomePage.Init | app/page.tsx:12-18 | the first state has a `null` page count, no file, no name, empty vector, width 300, and satisfies the invariant |
| HomePage.OnDocumentLoadSuccess | app/page.tsx:21-24 | numPages is set and the vector is numPages zeros; file, name and width unchanged; invariant kept |
| HomePage.OnFileChange | app/page.tsx:37-46 | with a first file it is stored and the name becomes its stem; with none the state is unchanged; invariant kept |
| HomePage.PageRotate | app/page.tsx:48-52 | only entry `current` changes, by exactly +90; length and other fields unchanged; invariant kept |
| HomePage.RemovePdf | app/page.tsx:54-58 | file null, numPages 0, vector empty; name and width untouched; invariant kept |
| HomePage.ZoomInPage | app/page.tsx:60-63 | only the width changes: below 500 it becomes width+50, at or above 500 it stays put; invariant kept |
| HomePage.ZoomOutPage | app/page.tsx:65-68 | only the width changes: above 100 it becomes width−50, at or below 100 it stays put; invariant kept |
| HomePage.DownloadPdf | app/page.tsx:70-84 | read failure without a file, load failure on unparsable bytes, rotation failure when the document has more pages than entries or an entry a page reaches is not a multiple of 90, otherwise the pointwise export under the stored name plus "(rotated).pdf" |
| HomePage.DownloadNamesStem | app/page.tsx:83 | in a reachable state with a file, a successful parse of at most \|rotate\| pages is saved under that file's stem plus "(rotated).pdf" |
| HomePage.DownloadBeforeLoadFails | app/page.tsx:70-81 | right after a pick, before the page count arrives, the vector is empty and downloading any non-empty document fails at the rotation step |
| HomePage.StepKeepsInv | app/page.tsx:21-68 | every handler keeps the invariant (aligned vector, quarter turns, width bounds, stored stem) |
| HomePage.RunKeepsInv | app/page.tsx:21-68 | every run of events from a state satisfying the invariant ends in one that satisfies it |
| HomePage.RunClicks | app/page.tsx:48-52 | k clicks on page i, run through the handler, equal the fold of those clicks into the vector, nothing else changing |
| HomePage.ClicksAfterLoad | app/page.tsx:48-52 | after a load of n pages, k clicks on page i leave 90·k there (no mod 360) and 0 on every other page |

## Left out

- **Rendering.** Page rendering by the PDF viewer library, its worker set-up
  and the CSS `rotate(...deg)` preview transform are display only. The
  transform is never stored.
- **File reading and saving.** `readFileAsync` and `saveByteArray` are
  browser I/O. A missing file is modelled only as the read failing, and the
  saved bytes as the page rotations they carry.
- **The PDF library.** `PDFDocument.load`, `save` and `degrees` are foreign
  calls. The parsed document is reduced to its pages' rotation values,
  passed in as a parameter, with `Null` standing for a failed load. The
  byte-level rebuild of the file is not modelled.
- **Markup.** JSX markup, header, footer and links are not modelled. This
  includes which buttons are shown in which state and the swapped
  `disabled` attributes on the zoom buttons. Events are modelled as
  possible in any state; the handlers guard the zoom bounds themselves.
- **Other files.** `app/layout.tsx`, `components/Header.tsx` and
  `components/BaiDuAnalytics.tsx` are site chrome and analytics, with no
  logic.
- **Async ordering.** Each handler is one atomic transition. Interleaving of
  asynchronous loads and exports ("last resolved wins") is not modelled.
- **Number width.** Rotation entries, widths and page counts are unbounded
  integers. JavaScript numbers are doubles, which agree with them up to
  2^53, far beyond any number of clicks.
- Container.PageRotate: requires an index inside the vector. An
  out-of-range index in the code writes `NaN` (or extends the array), which
  is not modelled. In reachable states every page the viewer shows is
  inside the vector.
- HomePage.PageRotate: same precondition as `Container.PageRotate`, for the
  same reason.
- Session.ExportRotations: requires an entry for every page. The case of a
  missing entry is handled one level up, where `Session.Export` returns
  `RotateFailed` for it.
- Session.ApplyExport: same precondition as `Session.ExportRotations`, for
  the same reason.
- Session.Export: the `RotateFailed` outcome rests on the PDF library's
  `setRotation` throwing for an angle that is not a number multiple of 90.
  That library is not part of this model.
- Js.LastIndexOf: positions count Unicode characters, while JavaScript
  counts UTF-16 code units. The two differ on names with characters outside
  the Basic Multilingual Plane: "😀.pdf" gives 1 here and 2 in JavaScript.
- Js.Substring: bounds count Unicode characters rather than UTF-16 code
  units, so it cannot split a surrogate pair as JavaScript's `substring`
  can. The file stem is unaffected, because it cuts at a `.`, which is
  never part of a surrogate pair.
