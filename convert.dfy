/** The per-image job, `convert_image` (webp_converter.py:10-25): open the
    image as RGB, optionally add a frame, compute the output name, save as
    WebP, and report the outcome as a tagged value. Opening and saving are
    the imaging library's; they are parameters here and may fail. */
module Conversion {
  import opened Text
  import opened Paths

  /** The two radio-button values, "original" and "custom". */
  datatype RenameMode = Original | Custom

  /** Pixel dimensions of an image; the pixels themselves are not modelled. */
  datatype Size = Size(width: nat, height: nat)

  datatype Loaded = Loaded(image: Size) | LoadError(message: string)
  datatype Written = Written | WriteError(message: string)

  /** The imaging library as the job sees it: `Image.open(path).convert("RGB")`
      and `image.save(path, "WEBP")`, each of which may raise. */
  datatype Imaging = Imaging(open: string -> Loaded, save: (Size, string) -> Written)

  /** The arguments of one `convert_image` call. `prefix` is `None` in
      "original" mode. */
  datatype Job = Job(
    inputPath: string,
    outputDir: string,
    mode: RenameMode,
    prefix: Option<string>,
    index: nat,
    frame: bool,
    frameColor: string,
    thickness: nat)

  /** What `convert_image` returns: "완료: <output>" or "실패: <input> - <error>". */
  datatype ConversionResult = Done(outputPath: string) | Failed(inputPath: string, message: string)

  const Extension: string := ".webp"

  /** `ImageOps.expand(image, border=t)`: a border of `t` pixels on every side. */
  function Framed(image: Size, frame: bool, thickness: nat): (r: Size)
    ensures frame ==> r.width == image.width + 2 * thickness && r.height == image.height + 2 * thickness
    ensures !frame || thickness == 0 ==> r == image
  {
    if frame then Size(image.width + thickness + thickness, image.height + thickness + thickness)
    else image
  }

  /** How an f-string spells the prefix argument: `None` prints as "None". */
  function PrefixText(prefix: Option<string>): (r: string)
    ensures prefix.Some? ==> r == prefix.value
    ensures prefix.None? ==> r == "None"
  {
    match prefix
    case Some(p) => p
    case None => "None"
  }

  /** The file name `convert_image` writes: the input's stem in "original"
      mode, `{prefix}_{index}` otherwise, always with the WebP extension. */
  function OutputName(inputPath: string, mode: RenameMode, prefix: Option<string>, index: nat): (r: string)
    ensures |r| >= |Extension| && r[|r| - |Extension|..] == Extension
  {
    if mode == Original then Stem(inputPath) + Extension
    else PrefixText(prefix) + "_" + Decimal(index) + Extension
  }

  /** `os.path.join(output_dir, output_name)`. */
  function OutputPath(job: Job): (r: string)
    ensures var name := OutputName(job.inputPath, job.mode, job.prefix, job.index);
      |r| >= |name| && r[|r| - |name|..] == name
  {
    JoinPath(job.outputDir, OutputName(job.inputPath, job.mode, job.prefix, job.index))
  }

  /** `convert_image`: never raises; a success names the file written, a
      failure names the input and carries the library's error message. */
  function ConvertImage(job: Job, imaging: Imaging): (r: ConversionResult)
    ensures r.Done? <==>
      imaging.open(job.inputPath).Loaded? &&
      imaging.save(Framed(imaging.open(job.inputPath).image, job.frame, job.thickness), OutputPath(job)).Written?
    ensures r.Done? ==> r.outputPath == OutputPath(job)
    ensures r.Failed? ==> r.inputPath == job.inputPath
    ensures r.Failed? && imaging.open(job.inputPath).LoadError? ==> r.message == imaging.open(job.inputPath).message
    ensures r.Failed? && imaging.open(job.inputPath).Loaded? ==>
      r.message == imaging.save(Framed(imaging.open(job.inputPath).image, job.frame, job.thickness), OutputPath(job)).message
  {
    match imaging.open(job.inputPath)
    case LoadError(e) => Failed(job.inputPath, e)
    case Loaded(image) =>
      var path := OutputPath(job);
      match imaging.save(Framed(image, job.frame, job.thickness), path)
      case Written => Done(path)
      case WriteError(e) => Failed(job.inputPath, e)
  }

  /** The line `convert_image` returns for its result. */
  function Render(r: ConversionResult): (line: string)
    ensures |line| >= 4
    ensures r.Done? <==> line[..4] == "완료: "
    ensures r.Done? ==> line[4..] == r.outputPath
    ensures r.Failed? ==> |line| == 4 + |r.inputPath| + 3 + |r.message|
    ensures r.Failed? ==> line[..4] == "실패: " && line[4..4 + |r.inputPath|] == r.inputPath
    ensures r.Failed? ==> line[4 + |r.inputPath|..] == " - " + r.message
  {
    match r
    case Done(path) => "완료: " + path
    case Failed(input, e) =>
      var line := "실패: " + input + " - " + e;
      assert line[0] == '실';
      line
  }

  // ---------------------------------------------------------------------
  // Naming properties

  /** Reads the index back out of a "custom" file name, if it has the shape
      `{prefix}_{digits}.webp`. */
  function CustomIndex(prefix: string, name: string): (r: Option<nat>)
    ensures r.Some? ==> |name| > |prefix| + 1 + |Extension| && name[..|prefix| + 1] == prefix + "_"
  {
    var head := prefix + "_";
    if |name| >= |head| + |Extension| && name[..|head|] == head && name[|name| - |Extension|..] == Extension then
      ParseNat(name[|head|..|name| - |Extension|])
    else None
  }

  /** In "custom" mode the name is `{prefix}_{index}.webp` and the index can
      be read back from it. */
  lemma CustomNameRoundTrip(inputPath: string, prefix: string, index: nat)
    ensures OutputName(inputPath, Custom, Some(prefix), index) == prefix + "_" + Decimal(index) + ".webp"
    ensures CustomIndex(prefix, OutputName(inputPath, Custom, Some(prefix), index)) == Some(index)
  {
    var name := OutputName(inputPath, Custom, Some(prefix), index);
    var head := prefix + "_";
    assert name == head + Decimal(index) + Extension;
    assert name[..|head|] == head;
    assert name[|head|..|name| - |Extension|] == Decimal(index);
    DecimalRoundTrip(index);
  }

  /** `os.path.join(d, -)` is one-to-one on names that agree on being absolute. */
  lemma JoinInjective(dir: string, a: string, b: string)
    requires (|a| >= 1 && a[0] == Sep) == (|b| >= 1 && b[0] == Sep)
    ensures JoinPath(dir, a) == JoinPath(dir, b) <==> a == b
  {
  }

  /** In "custom" mode two jobs of one batch write the same file only when
      they have the same index. */
  lemma CustomPathsDistinct(j1: Job, j2: Job)
    requires j1.mode == Custom && j2.mode == Custom
    requires j1.outputDir == j2.outputDir && j1.prefix == j2.prefix
    ensures OutputPath(j1) == OutputPath(j2) <==> j1.index == j2.index
  {
    var p := PrefixText(j1.prefix);
    var n1 := OutputName(j1.inputPath, Custom, j1.prefix, j1.index);
    var n2 := OutputName(j2.inputPath, Custom, j2.prefix, j2.index);
    assert n1 == (p + "_") + (Decimal(j1.index) + Extension);
    assert n2 == (p + "_") + (Decimal(j2.index) + Extension);
    assert n1[0] == n2[0];
    JoinInjective(j1.outputDir, n1, n2);
    if n1 == n2 {
      CustomNameRoundTrip(j1.inputPath, p, j1.index);
      CustomNameRoundTrip(j2.inputPath, p, j2.index);
    }
  }

  /** In "original" mode the name is the input's stem with the WebP
      extension; for `dir/base.ext` that stem is `base`. */
  lemma OriginalName(inputPath: string, dir: string, base: string, ext: string)
    requires base != "" && Sep !in base
    requires ext != "" && Sep !in ext && '.' !in ext
    requires inputPath == JoinPath(dir, base + "." + ext)
    ensures OutputName(inputPath, Original, None, 0) == base + ".webp"
  {
    StemOfSuffixed(dir, base, ext);
  }

  /** With the output directory set to the input's parent (the default after
      selecting files), an "original"-mode output lands next to its input ... */
  lemma OriginalBesideInput(job: Job)
    requires job.mode == Original
    requires Parts(job.inputPath) != []
    requires job.outputDir == Parent(job.inputPath)
    ensures Parent(OutputPath(job)) == Parent(job.inputPath)
  {
    var s := Stem(job.inputPath);
    StemOfFile(job.inputPath);
    var name := s + Extension;
    assert OutputPath(job) == JoinPath(job.outputDir, name);
    WebpNameIsPart(s);
    ParentOfJoin(job.outputDir, name);
    ParentIsNormal(job.inputPath);
  }

  /** ... and keeps its stem, whatever the output directory. */
  lemma OriginalKeepsStem(job: Job)
    requires job.mode == Original
    requires Parts(job.inputPath) != []
    ensures Stem(OutputPath(job)) == Stem(job.inputPath)
  {
    var s := Stem(job.inputPath);
    StemOfFile(job.inputPath);
    OriginalOutputPath(job);
    StemOfWebp(job.outputDir, s);
  }

  /** In `Original` mode the output is the input's stem plus `.webp`, placed in
      the output directory. */
  lemma OriginalOutputPath(job: Job)
    requires job.mode == Original
    ensures OutputPath(job) == JoinPath(job.outputDir, Stem(job.inputPath) + Extension)
  {
  }

  /** A `.webp` name built from a stem gives back that stem. */
  lemma StemOfWebp(dir: string, s: string)
    requires s != "" && Sep !in s
    ensures Stem(JoinPath(dir, s + Extension)) == s
  {
    assert s + Extension == s + "." + "webp";
    StemOfSuffixed(dir, s, "webp");
  }

  lemma WebpNameIsPart(s: string)
    requires s != "" && Sep !in s
    ensures IsPart(s + Extension)
  {
    var n := s + Extension;
    forall k | 0 <= k < |n| ensures n[k] != Sep {
      if k < |s| { assert n[k] == s[k] && s[k] in s; }
    }
  }

  /** "original" mode does not prevent two inputs from sharing an output:
      `dir1/base.ext1` and `dir2/base.ext2` are both written to
      `out/base.webp`, the later write replacing the earlier. */
  lemma OriginalNamesMayCollide(j1: Job, j2: Job, dir1: string, dir2: string, base: string, ext1: string, ext2: string)
    requires base != "" && Sep !in base
    requires ext1 != "" && Sep !in ext1 && '.' !in ext1
    requires ext2 != "" && Sep !in ext2 && '.' !in ext2
    requires j1.inputPath == JoinPath(dir1, base + "." + ext1)
    requires j2.inputPath == JoinPath(dir2, base + "." + ext2)
    requires j1.mode == Original && j2.mode == Original && j1.outputDir == j2.outputDir
    ensures OutputPath(j1) == OutputPath(j2)
  {
    OriginalName(j1.inputPath, dir1, base, ext1);
    OriginalName(j2.inputPath, dir2, base, ext2);
  }
}
