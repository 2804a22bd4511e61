# WebP converter: batch-conversion policy

This project models the logic of `webp_converter.py`, a tkinter/Pillow
desktop tool. The tool converts a selection of images to WebP. Each image
can get a solid-colour frame. Output files are named either after the
input (`photo.jpg` becomes `photo.webp`) or as `{prefix}_{index}.webp`.
The model covers the part that is not widget or library plumbing:

- `convert_image`: the naming rule and the tagged success/failure result
  (`convert.dfy`). The path operations it relies on, pathlib's
  `name`/`stem`/`parent` and `os.path.join`, are in `paths.dfy`. The
  numerals and integer parsing are in `text.dfy`.
- `start_conversion`: the pre-flight checks, the jobs and their 1-based
  indices, and result collection in completion order. It also covers the
  progress values and the completion summary. The specification functions
  are in `batch.dfy`.
- The controller object: its fields, `select_files`, `select_output_dir`,
  `choose_color`, `preview_image` and `start_conversion`, with both loops
  (`gui.dfy`).

Things outside the program are parameters of the model:

- The imaging library is an `Imaging` value holding two functions: opening
  an image as RGB (this gives its size or an error message) and saving it
  as WebP (this succeeds or gives an error message).
- The process pool's completion order is a sequence `order`. It is a
  permutation of the job positions, because `as_completed` yields each
  future exactly once.
- Dialog answers are method arguments.
- Message boxes and progress-bar writes are returned as values.

Three behaviours of the code worth noting:

- With the frame off, the thickness entry is never parsed. The thickness
  is then 0, so "-5" is rejected only while the frame is on.
- The "no output directory" check only tests for the empty string. Whether
  the directory exists or is writable is not checked before the batch.
  Such problems show up as per-file failures.
- The thickness error message asks for a positive integer, but 0 is
  accepted.

## Model

| member | source | states |
|---|---|---|
| Text.Decimal | webp_converter.py:20 | `{index}` is the shortest decimal numeral: digits only, non-empty, no leading zero unless the index is 0 |
| Text.ParseInt | webp_converter.py:121 | `int(text)` succeeds exactly on an optional '+' or '-' followed by one or more digits; the value is the digits' value, negated after '-' |
| Text.JoinWith | webp_converter.py:182 | `"\n".join(xs)`: the empty list gives "", a single line gives that line |
| Text.DecimalRoundTrip | webp_converter.py:20 | reading back the numeral of the index (with or without '-') gives the number back |
| Text.DecimalInjective | webp_converter.py:20 | two indices have the same numeral exactly when they are equal |
| Text.SplitJoin | webp_converter.py:182 | splitting `"\n".join(xs)` at newlines gives `xs` back when no line contains a newline |
| Paths.Root | webp_converter.py:107 | pathlib's root is "", "/" or "//", and is "//" exactly for paths that start with two slashes but not three |
| Paths.Parts | webp_converter.py:18 | every component pathlib keeps is non-empty, not "." and free of '/' |
| Paths.Name | webp_converter.py:18 | `Path(p).name` is empty exactly when the path has no components; otherwise it is one component |
| Paths.LastIndexOf | webp_converter.py:18 | `rfind`: -1 or a position holding the character, with no later occurrence |
| Paths.Stem | webp_converter.py:18 | `Path(p).stem` is a prefix of the name; when shorter it stops at the name's last '.'; it is empty only when the name is; a '.' that is the name's last character starts no suffix, so "photo." and ".." are their own stems |
| Paths.Format | webp_converter.py:107 | the spelling of a root and components starts with the root, is never empty, and is "." for a relative path with no components |
| Paths.Normalize | webp_converter.py:107 | `str(Path(p))` is never empty and parses to the same root and components as `p` |
| Paths.PartsOfFormat | webp_converter.py:107 | spelling a root and components and parsing the result again gives the same components |
| Paths.Parent | webp_converter.py:107 | `str(Path(p).parent)` is never empty, so selecting files always passes the "no output directory" check |
| Paths.JoinPath | webp_converter.py:21 | `os.path.join(dir, name)` is `name` when `name` is absolute, and otherwise starts with `dir` and ends with `name` |
| Paths.PartsOfJoin | webp_converter.py:21 | joining a plain file name onto a directory appends exactly that component, which becomes the name |
| Paths.ParentOfJoin | webp_converter.py:21 | the parent of `os.path.join(d, name)` is `d` in normal form |
| Paths.ParentIsNormal | webp_converter.py:107 | the parent path is already in normal form |
| Paths.StemOfFile | webp_converter.py:18 | a path that names a file has a non-empty stem without '/' |
| Paths.StemOfSuffixed | webp_converter.py:18 | the stem of `dir/base.ext` is `base` when `ext` holds no '.' |
| Conversion.Framed | webp_converter.py:14-15 | with the frame on, each dimension grows by twice the thickness; with it off, or a thickness of 0, the size is unchanged |
| Conversion.PrefixText | webp_converter.py:20 | `f"{prefix}"`: the prefix text itself, or "None" when no prefix is passed |
| Conversion.OutputName | webp_converter.py:17-20 | every output name ends in ".webp" |
| Conversion.OutputPath | webp_converter.py:21 | the output path ends with the output name |
| Conversion.ConvertImage | webp_converter.py:10-25 | always returns a result. Success exactly when opening and saving both succeed, carrying `os.path.join(output_dir, name)`. A failure carries the input path and the message of the step that failed (opening, or else saving) |
| Conversion.Render | webp_converter.py:23-25 | the returned line starts with "완료: " exactly for a success, followed by the output path; a failure line is "실패: ", the input path, " - " and the error message |
| Conversion.CustomIndex | webp_converter.py:20 | a name that decodes has the shape `{prefix}_...` with room for digits and the extension |
| Conversion.CustomNameRoundTrip | webp_converter.py:20 | in "custom" mode the name is `prefix + "_" + str(index) + ".webp"`, and the index can be read back from it |
| Conversion.CustomPathsDistinct | webp_converter.py:20-21 | in "custom" mode two jobs of a batch write the same path exactly when their indices are equal |
| Conversion.OriginalName | webp_converter.py:18 | in "original" mode `dir/base.ext` is written as `base.webp` |
| Conversion.OriginalBesideInput | webp_converter.py:18-21 | with the default output directory, an "original"-mode output lies in the input's directory |
| Conversion.OriginalKeepsStem | webp_converter.py:18-21 | an "original"-mode output has the input's stem, whatever the output directory |
| Conversion.OriginalNamesMayCollide | webp_converter.py:18-21 | in "original" mode `d1/base.e1` and `d2/base.e2` are written to the same path (no collision detection) |
| Batch.ThicknessFor | webp_converter.py:121-123 | frame off gives 0 whatever the entry says; frame on accepts exactly the texts that parse to an integer ≥ 0, with that value |
| Batch.ThicknessRejectsNonNumeral | webp_converter.py:121-126 | with the frame on, an entry holding any character other than a digit (or a leading sign) is rejected |
| Batch.ThicknessNumerals | webp_converter.py:149-151 | with the frame on, every numeral ≥ 0 is accepted (0 included) and every negative one is rejected |
| Batch.Submitted | webp_converter.py:166-174 | one job per selected file; the file at 0-based position `i` has index `i + 1`; every job carries the batch's output directory, mode, prefix, frame flag, colour and thickness |
| Batch.Range | webp_converter.py:167 | the submission positions 0 .. n-1 in order |
| Batch.Reorder | webp_converter.py:176 | the k-th element read is the element at position `order[k]` |
| Batch.Outcomes | webp_converter.py:168-174 | job `i`'s result is `convert_image` of job `i` |
| Batch.Collected | webp_converter.py:176-177 | the k-th appended result is `convert_image` of the k-th job to complete |
| Batch.Lines | webp_converter.py:177 | each collected string is the line `convert_image` returned |
| Batch.CompletedOnce | webp_converter.py:176 | in a completion order every job appears at exactly one place |
| Batch.ReorderPermutation | webp_converter.py:176-177 | two orders holding the same positions collect the same multiset of elements |
| Batch.ResultsReordered | webp_converter.py:176-177 | the results in completion order are a permutation of the per-job results: none lost, none duplicated |
| Batch.CustomNameByPosition | webp_converter.py:167-171 | in "custom" mode the file at position `i` is reported once: written to `prefix_{i+1}.webp` in the output directory, or as a failure naming that file, whatever the completion order |
| Batch.CustomOutputsDistinct | webp_converter.py:167-171 | in "custom" mode no two successful jobs of one batch write the same file |
| Batch.Percent | webp_converter.py:178 | `percent` times `n` is `i * 100`, i.e. `percent` is `(i / n) * 100` in exact arithmetic |
| Batch.ProgressTrace | webp_converter.py:176-179 | one progress value per completion; the k-th completion writes `(k / n) * 100` |
| Batch.PercentMonotone | webp_converter.py:178 | `(i / n) * 100` strictly increases with `i` |
| Batch.ProgressRises | webp_converter.py:176-179 | the per-completion values strictly increase, lie in (0, 100], and the n-th is exactly 100 |
| Batch.ProgressUpdates | webp_converter.py:156-183 | the bar is reset to 0 before the jobs, then receives the per-completion trace, then 100 |
| Batch.ProgressNeverFalls | webp_converter.py:156-183 | the sequence of progress-bar values never decreases and ends at 100 |
| Batch.Summary | webp_converter.py:182 | up to ten results, the summary is their newline join; beyond ten, it is the join of the first ten followed by a newline and "... (생략)" |
| Batch.SummaryShows | webp_converter.py:182 | read line by line, the summary is the first `min(10, n)` results, followed by "... (생략)" exactly when there are more than ten |
| Gui.PreviewOf | webp_converter.py:116-131 | no preview without files. A bad thickness exactly when the thickness rule rejects the entry. Otherwise an image is shown exactly when the first file opens, framed with the accepted thickness; when it does not open, the outcome carries the library's message |
| Gui.SubmitJobs | webp_converter.py:166-174 | the submission loop builds exactly the specified jobs, with indices 1..n in selection order |
| Gui.ConverterGui.constructor | webp_converter.py:29-38 | empty selection, no output directory, frame off, black frame, thickness text "20", "original" mode, prefix "image", progress 0 |
| Gui.ConverterGui.ChooseColor | webp_converter.py:99-102 | a picked colour replaces the frame colour; a cancelled picker leaves it unchanged |
| Gui.ConverterGui.PreviewImage | webp_converter.py:116-138 | behaves as `PreviewOf`; only a shown preview replaces the stored one |
| Gui.ConverterGui.SelectFiles | webp_converter.py:104-110 | the answer replaces the selection. A non-empty answer sets the output directory to the parent of its first file, announces the count and that directory, and refreshes the preview. An empty answer leaves the directory and the preview unchanged |
| Gui.ConverterGui.SelectOutputDir | webp_converter.py:112-114 | the dialog's answer becomes the output directory and is announced |
| Gui.ConverterGui.CollectResults | webp_converter.py:176-180 | one result line per completion, in completion order. The progress values are the specified trace. The bar is left at 100 |
| Gui.ConverterGui.StartConversion | webp_converter.py:140-183 | checks run in order: no files, then no output directory, then bad thickness. Each check returns before the bar is reset or any job is submitted. Otherwise it submits the specified jobs, shows the summary of the results in completion order, writes the progress updates and leaves the bar at 100 |

## Left out

- Widgets, layout, `toggle_frame_options` and the `__main__` block (webp_converter.py:46-97, 186-189): presentation only. Message boxes are returned as `Notice` values and dialogs are arguments.
- Pillow's pixel work (decoding, RGB conversion, border fill colour, WebP encoding): only image dimensions are modelled, and opening and saving are the `Imaging` functions. An invalid frame colour cannot arise because colours come from the picker; the model does not let the frame step fail.
- Gui.ConverterGui.PreviewImage: the `thumbnail((400, 400))` reduction and the Tk photo object are not modelled; the stored preview is the framed image before reduction.
- Processes and concurrency (`ProcessPoolExecutor`, `as_completed`): jobs are evaluated one after the other in the given completion order with one fixed `Imaging`. Interference between jobs through the file system (an output overwriting a later input) is not modelled.
- Batch.SummaryShows: assumes that no result line contains a newline. A path or an error message holding one makes the summary read as more lines than there are results.
- Batch.Percent: floating-point division is replaced by exact rational arithmetic, so rounding of `(i / n) * 100` is not modelled.
- Text.ParseInt: Python's `int` also strips surrounding whitespace, accepts `_` between digits and non-ASCII digits; only an optional sign followed by ASCII digits is modelled.
- Conversion.ConvertImage: the text of exceptions (`str(e)`) is whatever message the `Imaging` functions return. Naming cannot raise in the model. It could only raise in the source for non-string arguments, which the controller never passes.
- Paths: only POSIX path rules are modelled (no Windows drives or backslashes). The stem rule is that of pathlib up to Python 3.13.
- The job index is a number: the default `index=None` of `convert_image` is never used by the controller.
