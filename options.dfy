/**
 * The option surface (src/options.rs): the textual names of the two enums
 * and the step that turns the parsed command line into inject or extract
 * options, filling in defaults.
 */
module Options {
  import opened Common

  datatype AppMode = Inject | Extract

  datatype AlgoFrame = RGB | BW

  /** `Display` for `AppMode`: the lower-case name, different for the two modes. */
  function AppModeName(mode: AppMode): (name: string)
    ensures name == "inject" || name == "extract"
    ensures name == "inject" <==> mode == Inject
  {
    match mode
    case Inject => "inject"
    case Extract => "extract"
  }

  /** `FromStr` for `AppMode`: only the two display names are accepted. */
  function ParseAppMode(s: string): (r: Result<AppMode>)
    ensures r.Ok? <==> s == "inject" || s == "extract"
    ensures r.Ok? ==> AppModeName(r.value) == s
    ensures r.Err? ==> r.error == "Unknown mode: " + s
  {
    match s
    case "inject" => Ok(Inject)
    case "extract" => Ok(Extract)
    case _ => Err("Unknown mode: " + s)
  }

  /** `Display` for `AlgoFrame`: the lower-case name, different for the two algorithms. */
  function AlgoFrameName(algo: AlgoFrame): (name: string)
    ensures name == "rgb" || name == "bw"
    ensures name == "rgb" <==> algo == RGB
  {
    match algo
    case RGB => "rgb"
    case BW => "bw"
  }

  /** `FromStr` for `AlgoFrame`: only the two display names are accepted. */
  function ParseAlgoFrame(s: string): (r: Result<AlgoFrame>)
    ensures r.Ok? <==> s == "rgb" || s == "bw"
    ensures r.Ok? ==> AlgoFrameName(r.value) == s
    ensures r.Err? ==> r.error == "Unknown algo: " + s
  {
    match s
    case "rgb" => Ok(RGB)
    case "bw" => Ok(BW)
    case _ => Err("Unknown algo: " + s)
  }

  /** Parsing the display name of a mode gives the mode back. */
  lemma AppModeRoundTrip(mode: AppMode)
    ensures ParseAppMode(AppModeName(mode)) == Ok(mode)
  {
  }

  /** Parsing the display name of an algorithm gives the algorithm back. */
  lemma AlgoFrameRoundTrip(algo: AlgoFrame)
    ensures ParseAlgoFrame(AlgoFrameName(algo)) == Ok(algo)
  {
  }

  /** The parsed command line; every argument may be missing. */
  datatype CliData = CliData(
    inputFilePath: Option<string>,
    fps: Option<u8>,
    size: Option<u8>,
    height: Option<u16>,
    width: Option<u16>,
    outputVideoPath: Option<string>,
    mode: Option<AppMode>,
    algo: Option<AlgoFrame>)

  datatype InjectOptions = InjectOptions(
    filePath: string,
    outputVideoFile: string,
    fps: u8,
    width: u16,
    height: u16,
    size: u8,
    algo: AlgoFrame)

  datatype ExtractOptions = ExtractOptions(
    videoFilePath: string,
    extractedFilePath: string,
    fps: u8,
    width: u16,
    height: u16,
    size: u8,
    algo: AlgoFrame)

  datatype VideoOptions = InjectInVideo(inject: InjectOptions) | ExtractFromVideo(extract: ExtractOptions)

  /** `Option::unwrap_or`. */
  function UnwrapOr<T>(o: Option<T>, default: T): T
  {
    match o
    case Some(v) => v
    case None => default
  }

  /**
   * `extract_options`: a missing mode panics, and so does a missing input file
   * in inject mode; otherwise every missing argument takes its default. The
   * `Err` side of the source's `Result` is never produced.
   */
  function ExtractOptionsOf(args: CliData): (r: Outcome<Result<VideoOptions>>)
    ensures r.Panicked? <==> args.mode.None? || (args.mode == Some(Inject) && args.inputFilePath.None?)
    ensures r.Returned? ==> r.value.Ok?
    ensures r.Returned? ==> (r.value.value.InjectInVideo? <==> args.mode == Some(Inject))
    ensures !r.Diverges?
  {
    match args.mode
    case Some(Inject) =>
      if args.inputFilePath.None? then
        Panicked("Missing input file")
      else
        Returned(Ok(InjectInVideo(InjectOptions(
          args.inputFilePath.value,
          UnwrapOr(args.outputVideoPath, "video.mp4"),
          UnwrapOr(args.fps, 30),
          UnwrapOr(args.width, 3840),
          UnwrapOr(args.height, 2160),
          UnwrapOr(args.size, 1),
          UnwrapOr(args.algo, RGB)))))
    case Some(Extract) =>
      Returned(Ok(ExtractFromVideo(ExtractOptions(
        UnwrapOr(args.inputFilePath, "video.mp4"),
        UnwrapOr(args.outputVideoPath, "mydata.txt"),
        UnwrapOr(args.fps, 30),
        UnwrapOr(args.width, 3840),
        UnwrapOr(args.height, 2160),
        UnwrapOr(args.size, 1),
        UnwrapOr(args.algo, RGB)))))
    case None =>
      Panicked("Encrypt mode is required")
  }

  /** A command line with a mode and nothing else optional given. */
  function Bare(mode: AppMode, inputFilePath: Option<string>): CliData
  {
    CliData(inputFilePath, None, None, None, None, None, Some(mode), None)
  }

  /** Inject defaults: video.mp4, size 1, 30 fps, 3840 x 2160, RGB. */
  lemma InjectDefaults(path: string)
    ensures ExtractOptionsOf(Bare(Inject, Some(path)))
      == Returned(Ok(InjectInVideo(InjectOptions(path, "video.mp4", 30, 3840, 2160, 1, RGB))))
  {
  }

  /** Extract defaults: video.mp4 in, mydata.txt out, size 1, 30 fps, 3840 x 2160, RGB; no path is required. */
  lemma ExtractDefaults()
    ensures ExtractOptionsOf(Bare(Extract, None))
      == Returned(Ok(ExtractFromVideo(ExtractOptions("video.mp4", "mydata.txt", 30, 3840, 2160, 1, RGB))))
  {
  }

  /** Every argument that is given is passed through unchanged, in both modes. */
  lemma SuppliedValuesKept(args: CliData)
    requires args.mode.Some? && args.inputFilePath.Some? && args.outputVideoPath.Some?
    requires args.fps.Some? && args.size.Some? && args.width.Some? && args.height.Some? && args.algo.Some?
    ensures ExtractOptionsOf(args).Returned?
    ensures ExtractOptionsOf(args).value.value == match args.mode.value
      case Inject => InjectInVideo(InjectOptions(args.inputFilePath.value, args.outputVideoPath.value,
        args.fps.value, args.width.value, args.height.value, args.size.value, args.algo.value))
      case Extract => ExtractFromVideo(ExtractOptions(args.inputFilePath.value, args.outputVideoPath.value,
        args.fps.value, args.width.value, args.height.value, args.size.value, args.algo.value))
  {
  }
}
