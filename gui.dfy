/** The controller object `WebPConverterGUI` (webp_converter.py:28-183)
    without its widgets: the fields it updates, and the handlers that read
    and change them. Dialog answers, the completion order of the process
    pool and the imaging library are parameters; message boxes and progress
    bar writes are returned as values. */
module Gui {
  import opened Text
  import opened Paths
  import opened Conversion
  import opened Batch

  /** The message boxes the handlers show. */
  datatype Notice =
    | FilesSelected(count: nat, outputDir: string)   // "N개의 파일을 선택했습니다. ..."
    | OutputDirChosen(outputDir: string)             // "저장 경로: ..."
    | NoFilesWarning                                 // "변환할 이미지를 선택하세요."
    | NoOutputDirWarning                             // "저장 경로를 선택하세요."
    | ThicknessError                                 // "액자 두께는 양의 정수여야 합니다."
    | ConversionFinished(summary: string)            // the summary of the batch

  /** What `preview_image` does: nothing without files, an error box for a
      bad thickness, an exception when the first file cannot be opened (it
      is not caught there), otherwise the (framed) first image is shown. */
  datatype PreviewOutcome =
    | NothingSelected
    | BadThickness
    | OpenRaised(message: string)
    | Shown(image: Size)

  function PreviewOf(files: seq<string>, addFrame: bool, thicknessText: string, imaging: Imaging): (r: PreviewOutcome)
    ensures r == NothingSelected <==> files == []
    ensures r == BadThickness <==> files != [] && ThicknessFor(addFrame, thicknessText).None?
    ensures r.Shown? <==> files != [] && ThicknessFor(addFrame, thicknessText).Some? && imaging.open(files[0]).Loaded?
    ensures r.Shown? ==>
      r.image == Framed(imaging.open(files[0]).image, addFrame, ThicknessFor(addFrame, thicknessText).value)
    ensures r.OpenRaised? ==> imaging.open(files[0]).LoadError? && r.message == imaging.open(files[0]).message
  {
    if files == [] then NothingSelected
    else match ThicknessFor(addFrame, thicknessText)
      case None => BadThickness
      case Some(t) =>
        match imaging.open(files[0])
        case LoadError(e) => OpenRaised(e)
        case Loaded(image) => Shown(Framed(image, addFrame, t))
  }

  /** The first loop of `start_conversion`: one job per selected file, the
      file at position `i` with index `i + 1`. */
  method SubmitJobs(files: seq<string>, dir: string, mode: RenameMode, prefix: Option<string>,
                    frame: bool, color: string, thickness: nat) returns (jobs: seq<Job>)
    ensures jobs == Submitted(files, dir, mode, prefix, frame, color, thickness)
  {
    jobs := [];
    var i := 0;
    while i < |files|
      invariant 0 <= i <= |files|
      invariant jobs == Submitted(files, dir, mode, prefix, frame, color, thickness)[..i]
    {
      jobs := jobs + [Job(files[i], dir, mode, prefix, i + 1, frame, color, thickness)];
      i := i + 1;
    }
  }

  class ConverterGui {
    var filePaths: seq<string>
    var outputDir: string
    var addFrame: bool           // the "액자 추가" check box
    var frameColor: string
    var thicknessText: string    // the thickness entry
    var renameMode: RenameMode   // the rename radio buttons
    var prefixText: string       // the prefix entry
    var progress: real           // the progress bar's value
    var preview: Option<Size>    // the image last shown as preview

    constructor ()
      ensures filePaths == [] && outputDir == ""
      ensures !addFrame && frameColor == "#000000" && thicknessText == "20"
      ensures renameMode == Original && prefixText == "image"
      ensures progress == 0.0 && preview == None
    {
      filePaths := [];
      outputDir := "";
      addFrame := false;
      frameColor := "#000000";
      thicknessText := "20";
      renameMode := Original;
      prefixText := "image";
      progress := 0.0;
      preview := None;
    }

    /** `choose_color`: a picked colour replaces the frame colour; a
        cancelled picker leaves it. */
    method ChooseColor(picked: Option<string>)
      modifies this`frameColor
      ensures frameColor == if picked.Some? && picked.value != "" then picked.value else old(frameColor)
    {
      if picked.Some? && picked.value != "" {
        frameColor := picked.value;
      }
    }

    /** `preview_image` (the thumbnail reduction to 400x400 is not modelled). */
    method PreviewImage(imaging: Imaging) returns (outcome: PreviewOutcome)
      modifies this`preview
      ensures outcome == PreviewOf(filePaths, addFrame, thicknessText, imaging)
      ensures preview == if outcome.Shown? then Some(outcome.image) else old(preview)
    {
      if filePaths == [] {
        return NothingSelected;
      }
      var thickness := ThicknessFor(addFrame, thicknessText);
      if thickness.None? {
        return BadThickness;
      }
      match imaging.open(filePaths[0])
      case LoadError(e) =>
        outcome := OpenRaised(e);
      case Loaded(image) =>
        var shown := if addFrame then Framed(image, true, thickness.value) else image;
        preview := Some(shown);
        outcome := Shown(shown);
    }

    /** `select_files`: the dialog's answer replaces the selection; a
        non-empty one also moves the output directory to the parent of its
        first file, announces it and refreshes the preview. */
    method SelectFiles(picked: seq<string>, imaging: Imaging) returns (notices: seq<Notice>, outcome: PreviewOutcome)
      modifies this`filePaths, this`outputDir, this`preview
      ensures filePaths == picked
      ensures picked == [] ==> outputDir == old(outputDir) && notices == [] && outcome == NothingSelected && preview == old(preview)
      ensures picked != [] ==> outputDir == Parent(picked[0])
      ensures picked != [] ==> outcome == PreviewOf(picked, addFrame, thicknessText, imaging)
      ensures picked != [] ==> notices == [FilesSelected(|picked|, outputDir)] + (if outcome == BadThickness then [ThicknessError] else [])
      ensures preview == if outcome.Shown? then Some(outcome.image) else old(preview)
    {
      filePaths := picked;
      notices := [];
      outcome := NothingSelected;
      if picked != [] {
        outputDir := Parent(picked[0]);
        notices := [FilesSelected(|picked|, outputDir)];
        outcome := PreviewImage(imaging);
        if outcome == BadThickness {
          notices := notices + [ThicknessError];
        }
      }
    }

    /** `select_output_dir`: the dialog's answer ("" when cancelled) becomes
        the output directory. */
    method SelectOutputDir(picked: string) returns (notice: Notice)
      modifies this`outputDir
      ensures outputDir == picked && notice == OutputDirChosen(picked)
    {
      outputDir := picked;
      notice := OutputDirChosen(picked);
    }

    /** The second loop of `start_conversion`: one result line per
        completion, in completion order, and the progress bar set to
        `(k / n) * 100` after the k-th one. `trace` lists those values. */
    method CollectResults(jobs: seq<Job>, order: seq<nat>, imaging: Imaging)
      returns (results: seq<string>, trace: seq<real>)
      requires |jobs| > 0 && IsCompletionOrder(order, |jobs|)
      requires progress == 0.0
      modifies this`progress
      ensures results == Lines(Collected(jobs, order, imaging))
      ensures trace == ProgressTrace(|jobs|)
      ensures progress == 100.0
    {
      var n := |jobs|;
      results, trace := [], [];
      var k := 0;
      while k < n
        invariant 0 <= k <= n
        invariant results == Lines(Collected(jobs, order, imaging))[..k]
        invariant trace == ProgressTrace(n)[..k]
        invariant progress == if k == 0 then 0.0 else Percent(k, n)
      {
        LinesStep(jobs, order, imaging, k);
        TraceStep(n, k);
        results := results + [Render(ConvertImage(jobs[order[k]], imaging))];
        var percent := Percent(k + 1, n);
        progress := percent;
        trace := trace + [percent];
        k := k + 1;
      }
      LinesStep(jobs, order, imaging, n);
      TraceStep(n, n);
      PercentRange(n, n);
    }

    /** `start_conversion`. `order` is the order in which the pool finishes
        the jobs; `submitted` the jobs handed to the pool; `updates` every
        value written to the progress bar, in order. */
    method StartConversion(order: seq<nat>, imaging: Imaging)
      returns (notice: Notice, submitted: seq<Job>, updates: seq<real>)
      requires IsCompletionOrder(order, |filePaths|)
      modifies this`progress
      ensures filePaths == [] ==>
        notice == NoFilesWarning && submitted == [] && updates == [] && progress == old(progress)
      ensures filePaths != [] && outputDir == "" ==>
        notice == NoOutputDirWarning && submitted == [] && updates == [] && progress == old(progress)
      ensures filePaths != [] && outputDir != "" && ThicknessFor(addFrame, thicknessText).None? ==>
        notice == ThicknessError && submitted == [] && updates == [] && progress == old(progress)
      ensures filePaths != [] && outputDir != "" && ThicknessFor(addFrame, thicknessText).Some? ==>
        var prefix := if renameMode == Custom then Some(prefixText) else None;
        && submitted == Submitted(filePaths, outputDir, renameMode, prefix, addFrame, frameColor,
                                  ThicknessFor(addFrame, thicknessText).value)
        && notice == ConversionFinished(Summary(Lines(Collected(submitted, order, imaging))))
        && updates == ProgressUpdates(|filePaths|)
        && progress == 100.0
    {
      submitted, updates := [], [];
      if filePaths == [] {
        notice := NoFilesWarning;
        return;
      }
      if outputDir == "" {
        notice := NoOutputDirWarning;
        return;
      }
      var thickness := ThicknessFor(addFrame, thicknessText);
      if thickness.None? {
        notice := ThicknessError;
        return;
      }
      var t := thickness.value;

      progress := 0.0;
      updates := [progress];

      var mode := renameMode;
      var prefix := if mode == Custom then Some(prefixText) else None;
      submitted := SubmitJobs(filePaths, outputDir, mode, prefix, addFrame, frameColor, t);
      var results, trace := CollectResults(submitted, order, imaging);
      updates := updates + trace;

      notice := ConversionFinished(Summary(results));
      progress := 100.0;
      updates := updates + [progress];
    }
  }
}
