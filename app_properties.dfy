/** What the workflow controller (App.tsx) does, stated over its transition functions:
    the effect of each handler, the invariant the page's gating keeps, what goes wrong
    without that gating, and what happens when an extraction call resumes after a reset. */
module AppProperties {
  import opened Types
  import Intake
  import opened App

  /** Every sequence of events the page allows keeps the invariant. */
  lemma {:induction false} RunKeepsInv(s: Controller, evs: seq<Event>)
    requires Inv(s)
    ensures Run(s, evs).Some? ==> Inv(Run(s, evs).value)
    decreases |evs|
  {
    if evs != [] && Enabled(s, evs[0]) {
      StepPreservesInv(s, evs[0]);
      RunKeepsInv(Step(s, evs[0]), evs[1..]);
    }
  }

  /** Whatever the user does, at most one preview URL is alive, and it is the one shown. */
  lemma AtMostOneLiveUrl(evs: seq<Event>)
    requires Run(Initial, evs).Some?
    ensures |Run(Initial, evs).value.live| <= 1
    ensures OnlyDisplayedUrlLive(Run(Initial, evs).value)
  {
    InitialInv();
    RunKeepsInv(Initial, evs);
  }

  /** Selecting a file from the idle page shows its preview: the file is kept, exactly
      one new preview URL is created and is the only one alive, the error and the grid
      are cleared. */
  lemma FileSelectFromIdle(s: Controller, file: File)
    requires Inv(s) && s.state == Idle
    ensures var t := FileSelect(s, file);
      && t.state == Preview
      && t.selectedFile == Some(file)
      && t.errorMessage.None?
      && t.extractedData == []
      && t.previewUrl.Some? && t.previewUrl.value !in s.live
      && t.live == {t.previewUrl.value}
  {
    assert s.live == {};
  }

  /** `handleFileSelect` itself does not check the state: called while a preview is
      shown, the old URL stays alive but is no longer referenced, so it can never be
      revoked. Only the page's gating rules this out. */
  lemma UngatedFileSelectLeaks(s: Controller, file: File)
    requires Inv(s) && s.previewUrl.Some?
    ensures var t := FileSelect(s, file);
      && s.previewUrl.value in t.live
      && t.previewUrl != s.previewUrl
      && |t.live| == 2
      && !OnlyDisplayedUrlLive(t)
  {
    var t := FileSelect(s, file);
    assert s.live == {s.previewUrl.value};
    assert s.previewUrl.value < s.nextRef;
    assert t.live == {s.previewUrl.value, s.nextRef};
  }

  /** A file the dropzone refuses changes nothing in the controller; an idle page stays
      idle. */
  lemma RejectedUploadChangesNothing(s: Controller, file: File)
    requires Intake.Validate(file.mimeType, file.size) != Intake.Accept
    ensures Upload(s, file) == s
  {
  }

  /** Convert without a selected file is a no-op. */
  lemma ConvertWithoutFile(s: Controller)
    requires s.selectedFile.None?
    ensures Convert(s) == s
  {
  }

  /** A convert followed by a successful completion, from the preview, ends in success
      with exactly the returned grid, the same file and preview, no error, and no call
      left in flight that was not there before. */
  lemma ConvertThenSucceed(s: Controller, grid: TableData)
    requires Inv(s) && s.state == Preview
    ensures Convert(s).state == Processing && Convert(s).errorMessage.None?
    ensures Convert(s).inFlight == s.inFlight + 1
    ensures var t := Succeed(Convert(s), grid);
      && t.state == Success
      && t.extractedData == grid
      && t.selectedFile == s.selectedFile
      && t.previewUrl == s.previewUrl
      && t.errorMessage.None?
      && t.inFlight == s.inFlight
  {
  }

  /** A failed completion shows the error state with a non-empty message (the error's
      own, or the default when it has none) and leaves the grid as it was; after a
      convert from the preview that grid is empty, so no earlier grid is kept. */
  lemma ConvertThenFail(s: Controller, message: Option<string>)
    requires Inv(s) && s.state == Preview
    ensures var t := Fail(Convert(s), message);
      && t.state == Error
      && t.errorMessage.Some? && t.errorMessage.value != ""
      && (message.Some? && message.value != "" ==> t.errorMessage == message)
      && t.extractedData == [] == s.extractedData
      && t.selectedFile == s.selectedFile
  {
  }

  /** Download has nothing to export before an extraction succeeded. */
  lemma NothingToDownloadBeforeSuccess(s: Controller)
    requires Inv(s) && s.state in {Idle, Preview, Processing}
    ensures Download(s).None?
  {
  }

  /** `split('.')[0]` is determined by its three properties: the prefix of the name
      that has no dot and ends at the end of the name or at a dot is unique. */
  lemma FirstSegmentUnique(name: string, p: string)
    requires |p| <= |name| && p == name[..|p|]
    requires '.' !in p
    requires |p| == |name| || name[|p|] == '.'
    ensures p == FirstSegment(name)
  {
  }

  /** A file named `base.ext`, with no dot in `base`, is exported as
      `base_converted.xlsx`, whatever dots `ext` holds; a name without any dot is kept
      whole. */
  lemma DownloadNameDropsExtension(base: string, ext: string, mimeType: string, size: nat)
    requires '.' !in base
    ensures DownloadName(Some(File(base + "." + ext, mimeType, size))) == base + "_converted.xlsx"
    ensures DownloadName(Some(File(base, mimeType, size))) == base + "_converted.xlsx"
  {
    var name := base + "." + ext;
    assert name[..|base|] == base;
    assert name[|base|] == '.';
    FirstSegmentUnique(name, base);
    assert base[..|base|] == base;
    FirstSegmentUnique(base, base);
  }

  /** Reset ends idle with nothing selected, nothing shown and no error; it revokes the
      displayed URL, which was the only live one, and nothing else. */
  lemma ResetClearsEverything(s: Controller)
    requires Inv(s)
    ensures var t := Reset(s);
      && t.state == Idle
      && t.selectedFile.None? && t.previewUrl.None?
      && t.extractedData == [] && t.errorMessage.None?
      && t.live == {}
      && s.live - t.live == (if s.previewUrl.Some? then {s.previewUrl.value} else {})
      && Inv(t)
  {
  }

  /** A second reset revokes nothing and changes nothing. */
  lemma ResetIdempotent(s: Controller)
    ensures Reset(Reset(s)).live == Reset(s).live
    ensures Reset(Reset(s)) == Reset(s)
  {
  }

  /** Nothing guards the completion: a reset while processing (its button is shown then)
      is overwritten when the abandoned call returns. The page shows success with no
      file selected, and the export is then named after `undefined`. */
  lemma StaleSuccessOverridesReset(s: Controller, grid: TableData)
    requires Inv(s) && s.state == Processing
    ensures Enabled(s, ResetEv)
    ensures Enabled(Reset(s), SucceedEv(grid))
    ensures var t := Succeed(Reset(s), grid);
      && t.state == Success
      && t.selectedFile.None? && t.previewUrl.None?
      && t.extractedData == grid
      && (grid != [] ==> Download(t) == Some(ExportRequest(grid, "undefined_converted.xlsx")))
  {
    assert "undefined" + ExportSuffix == "undefined_converted.xlsx";
  }

  /** The same for a failing call: the reset page turns into the error page. */
  lemma StaleFailureOverridesReset(s: Controller, message: Option<string>)
    requires Inv(s) && s.state == Processing
    ensures Enabled(Reset(s), FailEv(message))
    ensures var t := Fail(Reset(s), message);
      t.state == Error && t.selectedFile.None? && t.previewUrl.None?
  {
  }

  const Photo: File := File("photo.png", "image/png", 2 * 1024 * 1024)

  /** Two extraction calls can be in flight at once: upload, convert, reset, upload
      again and convert again, all offered by the page. */
  lemma TwoCallsInFlight()
    ensures Run(Initial, [UploadEv(Photo), ConvertEv, ResetEv, UploadEv(Photo), ConvertEv]).Some?
    ensures Run(Initial, [UploadEv(Photo), ConvertEv, ResetEv, UploadEv(Photo), ConvertEv]).value.inFlight == 2
  {
    var evs := [UploadEv(Photo), ConvertEv, ResetEv, UploadEv(Photo), ConvertEv];
    var s1 := Step(Initial, evs[0]);
    var s2 := Step(s1, evs[1]);
    var s3 := Step(s2, evs[2]);
    var s4 := Step(s3, evs[3]);
    var s5 := Step(s4, evs[4]);
    assert s5.inFlight == 2;
    assert Run(s5, []) == Some(s5);
    assert Run(s4, evs[4..]) == Run(s5, []);
    assert Run(s3, evs[3..]) == Run(s4, evs[4..]);
    assert Run(s2, evs[2..]) == Run(s3, evs[3..]);
    assert Run(s1, evs[1..]) == Run(s2, evs[2..]);
  }

  /** An image `base.ext` within the size limit is uploaded, converted into a grid and
      downloaded: the exporter gets exactly that grid under `base_converted.xlsx` (so a
      2 MiB `photo.png` turned into a 3 by 4 grid is exported as
      `photo_converted.xlsx`). */
  lemma UploadConvertDownload(base: string, ext: string, mimeType: string, size: nat, grid: TableData)
    requires '.' !in base
    requires StartsWith(mimeType, Intake.ImageTypePrefix) && size <= Intake.MaxUploadBytes
    requires grid != []
    ensures var file := File(base + "." + ext, mimeType, size);
      var evs := [UploadEv(file), ConvertEv, SucceedEv(grid)];
      && Run(Initial, evs).Some?
      && Run(Initial, evs).value.state == Success
      && Enabled(Run(Initial, evs).value, DownloadEv)
      && Download(Run(Initial, evs).value) == Some(ExportRequest(grid, base + "_converted.xlsx"))
  {
    var file := File(base + "." + ext, mimeType, size);
    DownloadNameDropsExtension(base, ext, mimeType, size);
    var evs := [UploadEv(file), ConvertEv, SucceedEv(grid)];
    var s1 := FileSelect(Initial, file);
    assert s1 == Step(Initial, evs[0]);
    var s2 := Convert(s1);
    var s3 := Succeed(s2, grid);
    assert Run(s3, []) == Some(s3);
    assert Run(s2, evs[2..]) == Run(s3, []);
    assert Run(s1, evs[1..]) == Run(s2, evs[2..]);
  }
}
