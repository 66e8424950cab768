/** The workflow controller (App.tsx): five state fields, the four handlers that overwrite
    them, the completion of the extraction call as a separate event, and which handler
    the page offers in which state.

    The extraction call itself is abstract: `Convert` only starts it, and a later
    `Succeed` or `Fail` event is the `await` resuming. Object URLs are abstract numbered
    references; the browser's registry of unrevoked URLs is part of the state (`live`),
    and so is the number of extraction calls still awaited (`inFlight`). */
module App {
  import opened Types
  import Intake

  /** An object URL made by `URL.createObjectURL`. */
  type PreviewRef = nat

  /** The controller's fields, followed by the environment it talks to. */
  datatype Controller = Controller(
    state: AppState,
    selectedFile: Option<File>,
    previewUrl: Option<PreviewRef>,
    extractedData: TableData,
    errorMessage: Option<string>,
    live: set<PreviewRef>,   // object URLs created and not yet revoked
    nextRef: PreviewRef,     // the URL the next createObjectURL returns; never issued before
    inFlight: nat)           // extraction calls started whose `await` has not resumed

  /** The state on first render. */
  const Initial: Controller := Controller(Idle, None, None, [], None, {}, 0, 0)

  const DefaultFailureMessage: string := "Something went wrong during extraction."
  const ExportSuffix: string := "_converted.xlsx"

  /** What `handleDownload` hands to the spreadsheet exporter. */
  datatype ExportRequest = ExportRequest(data: TableData, filename: string)

  /** `handleFileSelect`: keep the file, create one preview URL, show the preview. */
  function FileSelect(s: Controller, file: File): Controller {
    s.(selectedFile := Some(file),
       previewUrl := Some(s.nextRef), live := s.live + {s.nextRef}, nextRef := s.nextRef + 1,
       state := Preview,
       errorMessage := None,
       extractedData := [])
  }

  /** `handleConvert` up to its `await`: without a file nothing happens; otherwise
      processing starts, the error is cleared and one extraction call is in flight. */
  function Convert(s: Controller): Controller {
    if s.selectedFile.None? then s
    else s.(state := Processing, errorMessage := None, inFlight := s.inFlight + 1)
  }

  /** The `await` resuming with a result: its grid is stored and shown. Nothing checks
      that the workflow is still the one that started the call. */
  function Succeed(s: Controller, grid: TableData): Controller
    requires s.inFlight > 0
  {
    s.(extractedData := grid, state := Success, inFlight := s.inFlight - 1)
  }

  /** `err.message || "Something went wrong during extraction."`; `None` stands for an
      error without a message. */
  function FailureMessage(message: Option<string>): (text: string)
    ensures text != ""
    ensures message.Some? && message.value != "" ==> text == message.value
    ensures message.None? || message.value == "" ==> text == DefaultFailureMessage
  {
    if message.Some? && message.value != "" then message.value else DefaultFailureMessage
  }

  /** The `await` resuming with an exception: the message is recorded and the error
      shown; the grid is left as it was. */
  function Fail(s: Controller, message: Option<string>): Controller
    requires s.inFlight > 0
  {
    s.(errorMessage := Some(FailureMessage(message)), state := Error, inFlight := s.inFlight - 1)
  }

  /** `name.split('.')[0]`: the part of a file name before its first dot. */
  function FirstSegment(name: string): (seg: string)
    ensures |seg| <= |name| && seg == name[..|seg|]
    ensures '.' !in seg
    ensures |seg| == |name| || name[|seg|] == '.'
  {
    if name == [] || name[0] == '.' then []
    else
      var rest := FirstSegment(name[1..]);
      assert name[..|rest| + 1] == [name[0]] + name[1..][..|rest|];
      [name[0]] + rest
  }

  /** `selectedFile?.name.split('.')[0] + '_converted.xlsx'`; with no file the optional
      chain yields `undefined`, which the concatenation spells out. */
  function DownloadName(file: Option<File>): (filename: string)
    ensures |ExportSuffix| <= |filename|
    ensures filename[|filename| - |ExportSuffix|..] == ExportSuffix
    ensures '.' !in filename[..|filename| - |ExportSuffix|]
    ensures file.Some? ==> filename[..|filename| - |ExportSuffix|] == FirstSegment(file.value.name)
    ensures file.None? ==> filename == "undefined_converted.xlsx"
  {
    var base := if file.Some? then FirstSegment(file.value.name) else "undefined";
    assert (base + ExportSuffix)[..|base|] == base;
    assert "undefined" + ExportSuffix == "undefined_converted.xlsx";
    base + ExportSuffix
  }

  /** `handleDownload`: nothing for an empty grid, otherwise the grid and the derived
      name go to the exporter. The controller's state does not change. */
  function Download(s: Controller): Option<ExportRequest> {
    if s.extractedData == [] then None
    else Some(ExportRequest(s.extractedData, DownloadName(s.selectedFile)))
  }

  /** `handleReset`: revoke the preview URL if there is one, clear everything, go idle.
      Calls in flight are abandoned, not cancelled. */
  function Reset(s: Controller): Controller {
    s.(live := if s.previewUrl.Some? then s.live - {s.previewUrl.value} else s.live,
       selectedFile := None,
       previewUrl := None,
       extractedData := [],
       state := Idle,
       errorMessage := None)
  }

  /** The Dropzone's `validateAndSelect` followed by its `onFileSelect` callback, which
      the page wires to `handleFileSelect`. */
  function Upload(s: Controller, file: File): (t: Controller)
    ensures Intake.CallbacksFor(file) == [] ==> t == s
    ensures Intake.CallbacksFor(file) == [file] ==>
      t == FileSelect(s, file) && t.state == Preview && t.selectedFile == Some(file)
  {
    if Intake.Validate(file.mimeType, file.size) == Intake.Accept then FileSelect(s, file) else s
  }

  /** The things that can happen: a user action or the extraction call resuming. */
  datatype Event =
    | UploadEv(file: File)
    | ConvertEv
    | SucceedEv(grid: TableData)
    | FailEv(message: Option<string>)
    | DownloadEv
    | ResetEv

  /** Which events can happen in a state. The page renders the dropzone only when idle,
      the convert buttons only in preview, the download button only on success and a
      reset button in every other state; a completion needs a call in flight. */
  predicate Enabled(s: Controller, ev: Event) {
    match ev
    case UploadEv(_) => s.state == Idle
    case ConvertEv => s.state == Preview
    case SucceedEv(_) => s.inFlight > 0
    case FailEv(_) => s.inFlight > 0
    case DownloadEv => s.state == Success
    case ResetEv => s.state != Idle
  }

  /** The user actions the page offers in each state (the dropzone, the convert buttons,
      the download button and the reset buttons): exactly one state offers uploading,
      convert is offered only beside reset, and under the invariant an offered convert
      always starts a call. */
  lemma OfferedByState(s: Controller, file: File)
    ensures s.state == Idle <==> Enabled(s, UploadEv(file))
    ensures s.state == Idle ==>
      !Enabled(s, ConvertEv) && !Enabled(s, DownloadEv) && !Enabled(s, ResetEv)
    ensures s.state == Preview ==>
      Enabled(s, ConvertEv) && Enabled(s, ResetEv) && !Enabled(s, DownloadEv)
    ensures s.state == Processing || s.state == Error ==>
      Enabled(s, ResetEv) && !Enabled(s, ConvertEv) && !Enabled(s, DownloadEv)
    ensures s.state == Success ==>
      Enabled(s, DownloadEv) && Enabled(s, ResetEv) && !Enabled(s, ConvertEv)
    ensures Enabled(s, ResetEv) <==> !Enabled(s, UploadEv(file))
    ensures Inv(s) && Enabled(s, ConvertEv) ==>
      Convert(s).state == Processing && Convert(s).inFlight == s.inFlight + 1
  {
  }

  /** The controller after an event. */
  function Step(s: Controller, ev: Event): Controller
    requires Enabled(s, ev)
  {
    match ev
    case UploadEv(file) => Upload(s, file)
    case ConvertEv => Convert(s)
    case SucceedEv(grid) => Succeed(s, grid)
    case FailEv(message) => Fail(s, message)
    case DownloadEv => s
    case ResetEv => Reset(s)
  }

  /** The controller after a sequence of events, or `None` if one of them is not
      enabled when it comes. */
  function Run(s: Controller, evs: seq<Event>): Option<Controller>
    decreases |evs|
  {
    if evs == [] then Some(s)
    else if !Enabled(s, evs[0]) then None
    else Run(Step(s, evs[0]), evs[1..])
  }

  /** The preview URLs still alive are exactly the one on display. */
  predicate OnlyDisplayedUrlLive(s: Controller) {
    s.live == (if s.previewUrl.Some? then {s.previewUrl.value} else {})
  }

  /** What holds in every state reached through the page. */
  predicate Inv(s: Controller) {
    && OnlyDisplayedUrlLive(s)
    && (forall r :: r in s.live ==> r < s.nextRef)
    && (s.previewUrl.Some? <==> s.selectedFile.Some?)
    && (s.state == Idle ==>
          s.selectedFile.None? && s.extractedData == [] && s.errorMessage.None?)
    && (s.state == Preview ==>
          s.selectedFile.Some? && s.extractedData == [] && s.errorMessage.None?)
    && (s.state == Processing ==>
          s.selectedFile.Some? && s.extractedData == [] && s.errorMessage.None? && s.inFlight > 0)
    && (s.state == Error ==> s.errorMessage.Some? && s.errorMessage.value != "")
  }

  /** The page starts in a state satisfying the invariant. */
  lemma InitialInv()
    ensures Inv(Initial)
  {
  }

  /** Every event the page allows keeps the invariant. */
  lemma StepPreservesInv(s: Controller, ev: Event)
    requires Inv(s) && Enabled(s, ev)
    ensures Inv(Step(s, ev))
  {
    match ev
    case UploadEv(file) =>
      if Intake.Validate(file.mimeType, file.size) == Intake.Accept {
        var t := FileSelect(s, file);
        assert s.live == {};
        assert t.live == {s.nextRef};
      }
    case ResetEv =>
      if s.previewUrl.Some? {
        assert s.live == {s.previewUrl.value};
        assert Reset(s).live == {};
      }
    case _ =>
  }

  /** The App component: its five `useState` fields, the browser's registry of object
      URLs and the extraction calls it is awaiting. Each handler overwrites the fields
      in the order the source does. */
  class Component {
    var appState: AppState
    var selectedFile: Option<File>
    var previewUrl: Option<PreviewRef>
    var extractedData: TableData
    var errorMessage: Option<string>
    var liveUrls: set<PreviewRef>
    var nextUrl: PreviewRef
    var pending: nat

    /** The component's state as a value. */
    function Snapshot(): Controller
      reads this
    {
      Controller(appState, selectedFile, previewUrl, extractedData, errorMessage,
                 liveUrls, nextUrl, pending)
    }

    ghost predicate Valid()
      reads this
    {
      Inv(Snapshot())
    }

    constructor ()
      ensures Snapshot() == Initial && Valid()
    {
      appState := Idle;
      selectedFile := None;
      previewUrl := None;
      extractedData := [];
      errorMessage := None;
      liveUrls := {};
      nextUrl := 0;
      pending := 0;
    }

    /** `URL.createObjectURL`: a reference never handed out before, now live. */
    method CreateObjectUrl() returns (url: PreviewRef)
      modifies this`liveUrls, this`nextUrl
      ensures url == old(nextUrl) && nextUrl == url + 1
      ensures liveUrls == old(liveUrls) + {url}
    {
      url := nextUrl;
      nextUrl := nextUrl + 1;
      liveUrls := liveUrls + {url};
    }

    method HandleFileSelect(file: File)
      modifies this
      ensures Snapshot() == FileSelect(old(Snapshot()), file)
    {
      selectedFile := Some(file);
      var url := CreateObjectUrl();
      previewUrl := Some(url);
      appState := Preview;
      errorMessage := None;
      extractedData := [];
    }

    /** `handleConvert` up to its `await`; `started` tells whether the call was made. */
    method HandleConvert() returns (started: bool)
      modifies this
      ensures started <==> old(selectedFile).Some?
      ensures Snapshot() == Convert(old(Snapshot()))
    {
      if selectedFile.None? {
        return false;
      }
      appState := Processing;
      errorMessage := None;
      pending := pending + 1;
      started := true;
    }

    /** The rest of `handleConvert` after the call returned `grid`. */
    method ResumeWithResult(grid: TableData)
      requires pending > 0
      modifies this
      ensures Snapshot() == Succeed(old(Snapshot()), grid)
    {
      pending := pending - 1;
      extractedData := grid;
      appState := Success;
    }

    /** The rest of `handleConvert` after the call threw an error with `message`. */
    method ResumeWithError(message: Option<string>)
      requires pending > 0
      modifies this
      ensures Snapshot() == Fail(old(Snapshot()), message)
    {
      pending := pending - 1;
      errorMessage := Some(FailureMessage(message));
      appState := Error;
    }

    /** `handleDownload`: the request passed to the exporter, if any. */
    method HandleDownload() returns (request: Option<ExportRequest>)
      ensures request.None? <==> extractedData == []
      ensures request.Some? ==>
        request.value.data == extractedData &&
        request.value.filename == DownloadName(selectedFile)
    {
      if |extractedData| == 0 {
        return None;
      }
      request := Some(ExportRequest(extractedData, DownloadName(selectedFile)));
    }

    method HandleReset()
      modifies this
      ensures Snapshot() == Reset(old(Snapshot()))
    {
      if previewUrl.Some? {
        liveUrls := liveUrls - {previewUrl.value};
      }
      selectedFile := None;
      previewUrl := None;
      extractedData := [];
      appState := Idle;
      errorMessage := None;
    }

    /** One event as the page delivers it: the dropzone's validation then
        `handleFileSelect`, a handler, or the extraction call resuming. Returns what was
        handed to the exporter, if anything. */
    method Dispatch(ev: Event) returns (request: Option<ExportRequest>)
      requires Valid() && Enabled(Snapshot(), ev)
      modifies this
      ensures Valid()
      ensures Snapshot() == Step(old(Snapshot()), ev)
      ensures request == (if ev.DownloadEv? then Download(old(Snapshot())) else None)
    {
      StepPreservesInv(Snapshot(), ev);
      request := None;
      match ev
      case UploadEv(file) =>
        if Intake.Validate(file.mimeType, file.size) == Intake.Accept {
          HandleFileSelect(file);
        }
      case ConvertEv =>
        var _ := HandleConvert();
      case SucceedEv(grid) =>
        ResumeWithResult(grid);
      case FailEv(message) =>
        ResumeWithError(message);
      case DownloadEv =>
        request := HandleDownload();
      case ResetEv =>
        HandleReset();
    }
  }
}
