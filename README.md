# Image-to-table extractor: a Dafny model of its own logic

The application is a browser page: the user drops an image of a table, it is sent to a
hosted vision model, the returned rows are shown in a preview, and they can be
downloaded as a spreadsheet. Most of it is UI markup around two external services. Its
own logic is modelled here:

- **The workflow controller** (`App.tsx`, module `App`). It holds five fields: the state
  (`Idle`, `Preview`, `Processing`, `Success`, `Error`), the selected file, the preview
  URL, the extracted grid and the error message. Four handlers overwrite them: file
  select, convert, download and reset. The pure transition functions (`FileSelect`,
  `Convert`, `Succeed`, `Fail`, `Download`, `Reset`) specify the class
  `App.Component`. That class holds the same fields, and its handler methods are proved
  to produce exactly those transitions. The extraction call is split in two. Convert
  starts it. A later `Succeed` (with a grid) or `Fail` (with an optional message) event
  is the `await` resuming. The state also tracks the environment: the browser's set of
  live object URLs, and how many extraction calls are still awaited. `Enabled` records
  which handler the page offers in which state. The dropzone is rendered only when idle,
  convert only in preview, download only on success, and a reset button in every other
  state. `AppProperties` proves what the handlers do and the invariant this gating keeps
  (at most one live preview URL, always the displayed one). It also proves what the
  gating does not prevent.
- **The upload validator** (`components/Dropzone.tsx`, module `Intake`). `Validate` is
  the accept / reject decision on MIME type and size. The type check comes first, then a
  strict `>` against 10 MiB. The class `Intake.Dropzone` holds the drag-over flag, the
  error text and the calls made to `onFileSelect`. Only the first file of a drop or
  input selection is considered.
- **The grid preview** (`components/TablePreview.tsx`, module `Preview`). An empty grid
  shows a placeholder. Otherwise the table is as wide as the longest row, short rows are
  padded with empty cells, rows are numbered from 1, and columns are headed
  "Col A", "Col B", and so on.

Four behaviours of the code are easy to miss:

- A reset during `Processing` does not discard the pending result. When the call
  returns, the page moves to `Success` or `Error` with no file selected
  (`StaleSuccessOverridesReset`, `StaleFailureOverridesReset`). A download then names
  the export `undefined_converted.xlsx`.
- More than one extraction call can be in flight. Reset, upload and convert again while
  the first call is pending (`TwoCallsInFlight`).
- A file of exactly 10 MiB is accepted. Only a larger one is refused (`SizeBoundary`).
- A failed extraction leaves the grid as it was. After a convert from the preview that
  grid is already empty (`ConvertThenFail`).

## Model

| member | source | states |
|---|---|---|
| Intake.Validate | components/Dropzone.tsx:24-32 | a file is accepted iff its type starts with `image/` and its size is at most 10 MiB; it is a type error iff the type is not `image/...`, whatever the size; it is a size error iff it is an image over 10 MiB |
| Intake.ErrorFor | components/Dropzone.tsx:25-33 | the error shown is cleared exactly on acceptance, is the image-type text for a type error and the size text for a size error, and is never empty |
| Intake.CallbacksFor | components/Dropzone.tsx:33-34 | `onFileSelect` is called exactly once, with the file, when it is accepted, and not at all otherwise |
| Intake.TypeCheckComesFirst | components/Dropzone.tsx:25-28 | a non-image file gets the type error even when it is also over the size limit |
| Intake.SizeBoundary | components/Dropzone.tsx:29-31 | an image of exactly 10485760 bytes is accepted and one of 10485761 bytes is refused as too large |
| Intake.AcceptanceMonotone | components/Dropzone.tsx:29-31 | shrinking an accepted file keeps it accepted; growing a too-large image keeps it too large |
| Intake.Dropzone.constructor | components/Dropzone.tsx:9-11 | the component starts without highlight, without error and without any selection |
| Intake.Dropzone.HandleDragOver | components/Dropzone.tsx:14-17 | drag-over sets the highlight unless the dropzone is disabled, and then leaves it unchanged |
| Intake.Dropzone.HandleDragLeave | components/Dropzone.tsx:19-22 | drag-leave always clears the highlight |
| Intake.Dropzone.ValidateAndSelect | components/Dropzone.tsx:24-35 | the error becomes the verdict's text (cleared on acceptance) and the file is passed to `onFileSelect` exactly when accepted |
| Intake.Dropzone.HandleDrop | components/Dropzone.tsx:37-45 | a drop always clears the highlight; when disabled or empty it changes nothing else; otherwise only the first file is validated and selected |
| Intake.Dropzone.HandleChange | components/Dropzone.tsx:47-51 | an empty selection changes nothing; otherwise only the first file is validated and selected |
| Preview.MaxCols | components/TablePreview.tsx:18 | the column count is at least every row's length and equals the length of some row |
| Preview.PadRow | components/TablePreview.tsx:46-48 | a displayed row has exactly `maxCols` cells, starts with the row's own cells and shows `""` past its end |
| Preview.ColumnHeader | components/TablePreview.tsx:32-35 | header `i` is "Col " followed by the UTF-16 code unit 65 + i |
| Preview.Render | components/TablePreview.tsx:9-24 | the placeholder is shown exactly for an empty grid; otherwise the summary reports `data.length` rows and `maxCols` columns, there is one header per column and one displayed row per grid row, and the column count is the longest row's length |
| Preview.RenderIsRectangularPadding | components/TablePreview.tsx:40-50 | displayed row `r` is numbered `r + 1`, has exactly `maxCols` cells, begins with `data[r]` unchanged and is empty after it |
| Preview.HeadersAreLettered | components/TablePreview.tsx:32-35 | the first 26 columns are headed "Col A" to "Col Z" |
| Preview.ColumnCountIsLeastFit | components/TablePreview.tsx:18 | no narrower width fits every row |
| Preview.RaggedExample | components/TablePreview.tsx:18-48 | `[["a","b"],["c"]]` is shown two columns wide with the second row as `["c", ""]` |
| App.FailureMessage | App.tsx:45 | the recorded message is never empty: it is the error's message when that is non-empty, the default text otherwise |
| App.FirstSegment | App.tsx:52 | `split('.')[0]` is a prefix of the name containing no dot and ending at the end of the name or at its first dot |
| App.DownloadName | App.tsx:52 | the export name always ends in `_converted.xlsx` after a dot-free stem; the stem is the file name's part before its first dot, and with no file selected the optional chain gives `undefined_converted.xlsx` |
| App.Upload | App.tsx:96 | the dropzone's callback is the controller's file-select handler: a refused file (no callback) leaves the controller unchanged, an accepted one (one callback) applies `handleFileSelect` once and enters preview with that file |
| App.OfferedByState | App.tsx:86-193 | the page's gating of `Enabled`: the dropzone only when idle, convert and reset in preview, only reset while processing or on the error page, download and reset on success; reset is offered exactly when upload is not, and an offered convert always starts a call |
| App.InitialInv | App.tsx:19-23 | the first render satisfies the controller invariant |
| App.StepPreservesInv | App.tsx:25-63 | every event the page offers keeps the invariant: live preview URLs are exactly the displayed one, file and URL are set together, idle / preview / processing have no grid and no error, the error page has a non-empty message |
| App.Component.constructor | App.tsx:19-23 | the component starts idle with nothing selected, no URL, an empty grid and no error |
| App.Component.CreateObjectUrl | App.tsx:27 | each preview URL is new and becomes live |
| App.Component.HandleFileSelect | App.tsx:25-31 | file select stores the file, creates one preview URL, enters preview, clears the error and empties the grid |
| App.Component.HandleConvert | App.tsx:33-38 | convert starts a call exactly when a file is selected; it then enters processing and clears the error, and otherwise changes nothing |
| App.Component.ResumeWithResult | App.tsx:40-42 | a successful call stores exactly the returned grid and enters success |
| App.Component.ResumeWithError | App.tsx:43-46 | a failed call records the non-empty message, enters error and leaves the grid |
| App.Component.HandleDownload | App.tsx:50-54 | download exports nothing for an empty grid, and otherwise the grid unchanged under the file's name before its first dot plus `_converted.xlsx` |
| App.Component.HandleReset | App.tsx:56-63 | reset revokes the preview URL when there is one, clears file, URL, grid and error, and enters idle |
| App.Component.Dispatch | App.tsx:86-193 | an event the page offers runs its handler (an upload passes the dropzone's check first) and keeps the invariant |
| AppProperties.RunKeepsInv | App.tsx:86-193 | every sequence of offered events keeps the invariant |
| AppProperties.AtMostOneLiveUrl | App.tsx:25-63 | in every reachable state at most one preview URL is alive, and it is the displayed one |
| AppProperties.FileSelectFromIdle | App.tsx:25-31 | selecting from idle creates exactly one new preview URL, which is then the only live one |
| AppProperties.UngatedFileSelectLeaks | App.tsx:25-31 | the handler alone does not check the state: called during a preview it leaves the old URL alive and unreferenced |
| AppProperties.RejectedUploadChangesNothing | components/Dropzone.tsx:24-35 | a file the dropzone refuses leaves the controller unchanged, so an idle page stays idle |
| AppProperties.ConvertWithoutFile | App.tsx:34 | convert with no selected file changes nothing |
| AppProperties.ConvertThenSucceed | App.tsx:36-42 | convert then success from the preview ends in success with exactly the returned grid, the same file and URL and no error |
| AppProperties.ConvertThenFail | App.tsx:43-46 | convert then failure from the preview ends in error with a non-empty message and an empty grid |
| AppProperties.NothingToDownloadBeforeSuccess | App.tsx:50-51 | before success the grid is empty, so download exports nothing |
| AppProperties.FirstSegmentUnique | App.tsx:52 | the three properties of `FirstSegment` determine it uniquely |
| AppProperties.DownloadNameDropsExtension | App.tsx:52 | a file `base.ext` with no dot in `base` exports as `base_converted.xlsx` whatever dots `ext` holds (`photo.png` as `photo_converted.xlsx`, `a.b.png` as `a_converted.xlsx`); a name without a dot is kept whole |
| AppProperties.ResetClearsEverything | App.tsx:56-63 | reset ends idle and cleared, revokes exactly the displayed URL and leaves no URL alive |
| AppProperties.ResetIdempotent | App.tsx:56-63 | a second reset revokes nothing and changes nothing |
| AppProperties.StaleSuccessOverridesReset | App.tsx:40-42 | a call that succeeds after a reset during processing moves the idle page to success with no file, and its export is named `undefined_converted.xlsx` |
| AppProperties.StaleFailureOverridesReset | App.tsx:43-46 | a call that fails after a reset during processing moves the idle page to error with no file |
| AppProperties.TwoCallsInFlight | App.tsx:33-40 | upload, convert, reset, upload, convert are all offered in turn and leave two extraction calls in flight |
| AppProperties.UploadConvertDownload | App.tsx:25-53 | upload of an image `base.ext` within the size limit, convert and a successful extraction are all offered in turn and end in success; download then exports exactly the returned grid as `base_converted.xlsx` (a 2 MiB `photo.png` as `photo_converted.xlsx`) |

## Left out

- The extraction service (`services/geminiService.ts`) is not part of this model. It does base64 encoding, the network request, the fixed prompt and schema, and JSON parsing. The model sees only its outcome: a grid, or a failure with an optional message.
- The spreadsheet exporter (`services/excelService.ts`) is not part of this model. It wraps a third-party library. The model stops at the request passed to it (`ExportRequest`).
- `URL.createObjectURL` / `revokeObjectURL` are modelled as numbered references and a set of live references. `console.error` and `inputRef.current?.click()` are left out.
- All markup, styling and icons are left out. The `Button` component is not part of this model. The JSX is modelled only as far as it decides which handler can fire (`Enabled`).
- Asynchronous scheduling is left out. A completion is one discrete event that can fall between any two user actions.
- Intake.Dropzone.HandleChange: does not model the `disabled` attribute of the hidden input element, which the browser enforces. The page never sets `disabled` anyway.
- Intake.Dropzone.HandleDrop: a missing file list (`null`) is treated like an empty list. Both do nothing in the source.
- Preview.Render: the source's `!data` guard for a missing grid is not modelled, because a grid is always an array here.
- Preview.ColumnHeader: the header's code unit is modelled as a number, not as Dafny's `char`. Codes 0xD800 to 0xDFFF are not valid `char` values.
- Cells are Dafny strings of characters, not UTF-16 code units. Only the column header needs code-unit arithmetic.
