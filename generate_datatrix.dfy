/**
 * The later, PDF-producing driver: locate the workbook, ask for the page
 * size and the caption, extract the codes, cap them in debug mode, and hand
 * them to the PDF builder if any are left, all inside one `try` whose
 * `except` reports the error.
 */
module GenerateDatatrix {
  import opened Wrappers

  /** The entries of the global configuration table that the run reads or sets. */
  class Config {
    var excelFile: string       // the workbook path entry
    var useMm: bool             // the PDF unit flag: millimetres when true, centimetres when false
    const debugEnabled: bool    // the debug switch
    const maxPages: int         // the debug page cap

    constructor (excelFile: string, useMm: bool, debugEnabled: bool, maxPages: int)
      ensures this.excelFile == excelFile && this.useMm == useMm
      ensures this.debugEnabled == debugEnabled && this.maxPages == maxPages
    {
      this.excelFile := excelFile;
      this.useMm := useMm;
      this.debugEnabled := debugEnabled;
      this.maxPages := maxPages;
    }
  }

  /**
   * What the collaborators outside this script answer during one run: each
   * call either returns a value or raises, and the error raised is what the
   * top-level handler reports.
   */
  datatype Environment = Environment(
    excelFile: Result<string, string>,   // workbook discovery
    sizeChoice: Result<string, string>,  // the answer to the page-size prompt
    caption: Result<string, string>,     // the answer to the caption prompt
    codes: Result<seq<string>, string>,  // code extraction
    pdfError: Option<string>)            // the PDF builder: None when it returns, the error when it raises

  /** The observable steps of a run: calls out, prompts and printed messages. */
  datatype Step =
    | FindExcelFile
    | ShowExcelFile(path: string)
    | AskPageSize
    | AskCaption
    | ExtractCodes
    | ShowDebugCount(count: nat)
    | CreatePdf(codes: seq<string>, caption: string)
    | ShowSuccess
    | ShowNoCodes
    | ShowError(message: string)

  /** The page-size answer that selects millimetres; any other answer selects centimetres. */
  const MillimetreChoice := "2"

  /**
   * `codes[:stop]` with Python's slice rules: a prefix, at most `stop` long
   * for a non-negative `stop`, and all but the last `-stop` elements for a
   * negative one.
   */
  function Slice(codes: seq<string>, stop: int): (r: seq<string>)
    ensures |r| <= |codes| && r == codes[..|r|]
    ensures stop >= 0 ==> |r| == if stop < |codes| then stop else |codes|
    ensures stop < 0 ==> |r| == if |codes| + stop > 0 then |codes| + stop else 0
  {
    var end := if stop >= 0 then stop else |codes| + stop;
    codes[..if end < 0 then 0 else if end > |codes| then |codes| else end]
  }

  /** The list the PDF step sees: capped in debug mode, untouched otherwise. */
  function Capped(codes: seq<string>, debugEnabled: bool, maxPages: int): seq<string> {
    if debugEnabled then Slice(codes, maxPages) else codes
  }

  /** The steps up to the page-size prompt, once the workbook was found at `path`. */
  function Found(path: string): seq<Step> {
    [FindExcelFile, ShowExcelFile(path), AskPageSize]
  }

  /** The steps of a whole run, by the same rules as `RunMain`. */
  function Run(env: Environment, debugEnabled: bool, maxPages: int): (t: seq<Step>)
    ensures |t| >= 2 && t[0] == FindExcelFile
  {
    match env.excelFile
    case Failure(e) => [FindExcelFile, ShowError(e)]
    case Success(path) =>
      match env.sizeChoice
      case Failure(e) => Found(path) + [ShowError(e)]
      case Success(_) =>
        match env.caption
        case Failure(e) => Found(path) + [AskCaption, ShowError(e)]
        case Success(caption) =>
          match env.codes
          case Failure(e) => Found(path) + [AskCaption, ExtractCodes, ShowError(e)]
          case Success(all) =>
            var codes := Capped(all, debugEnabled, maxPages);
            var shown := if debugEnabled then [ShowDebugCount(|codes|)] else [];
            if codes == [] then Found(path) + [AskCaption, ExtractCodes] + shown + [ShowNoCodes]
            else
              Found(path) + [AskCaption, ExtractCodes] + shown + [CreatePdf(codes, caption)]
              + (if env.pdfError.Some? then [ShowError(env.pdfError.value)] else [ShowSuccess])
  }

  /** Whether the run gets as far as extracting codes, and extraction returns. */
  predicate Extracted(env: Environment) {
    env.excelFile.Success? && env.sizeChoice.Success? && env.caption.Success? && env.codes.Success?
  }

  /**
   * `main`: sets the workbook path and the unit flag in the configuration as
   * it goes, and stops at the first step that raises.
   */
  method RunMain(config: Config, env: Environment) returns (trace: seq<Step>)
    modifies config`excelFile, config`useMm
    ensures trace == Run(env, config.debugEnabled, config.maxPages)
    ensures config.excelFile == if env.excelFile.Success? then env.excelFile.value else old(config.excelFile)
    ensures config.useMm ==
      if env.excelFile.Success? && env.sizeChoice.Success? then env.sizeChoice.value == MillimetreChoice
      else old(config.useMm)
  {
    trace := [FindExcelFile];
    if env.excelFile.Failure? {
      trace := trace + [ShowError(env.excelFile.error)];
      return;
    }
    config.excelFile := env.excelFile.value;
    trace := trace + [ShowExcelFile(config.excelFile)];

    trace := trace + [AskPageSize];
    assert trace == Found(env.excelFile.value);
    if env.sizeChoice.Failure? {
      trace := trace + [ShowError(env.sizeChoice.error)];
      return;
    }
    config.useMm := env.sizeChoice.value == MillimetreChoice;

    trace := trace + [AskCaption];
    if env.caption.Failure? {
      trace := trace + [ShowError(env.caption.error)];
      return;
    }
    var caption := env.caption.value;

    trace := trace + [ExtractCodes];
    assert trace == Found(env.excelFile.value) + [AskCaption, ExtractCodes];
    if env.codes.Failure? {
      trace := trace + [ShowError(env.codes.error)];
      return;
    }
    var codes := env.codes.value;

    if config.debugEnabled {
      codes := Slice(codes, config.maxPages);
      trace := trace + [ShowDebugCount(|codes|)];
    }

    if codes != [] {
      trace := trace + [CreatePdf(codes, caption)];
      if env.pdfError.Some? {
        trace := trace + [ShowError(env.pdfError.value)];
        return;
      }
      trace := trace + [ShowSuccess];
    } else {
      trace := trace + [ShowNoCodes];
    }
  }

  /** The PDF builder is called at most once per run. */
  lemma PdfAtMostOnce(env: Environment, debugEnabled: bool, maxPages: int)
    ensures var t := Run(env, debugEnabled, maxPages);
      forall i, j :: 0 <= i < j < |t| ==> !(t[i].CreatePdf? && t[j].CreatePdf?)
  {
  }

  /**
   * The PDF builder is called exactly when every earlier step returned and
   * the possibly capped list is non-empty; it then receives that list and the
   * one caption entered, for the whole batch.
   */
  lemma PdfCall(env: Environment, debugEnabled: bool, maxPages: int)
    ensures var t := Run(env, debugEnabled, maxPages);
      (exists k :: 0 <= k < |t| && t[k].CreatePdf?)
      <==> Extracted(env) && Capped(env.codes.value, debugEnabled, maxPages) != []
    ensures forall s <- Run(env, debugEnabled, maxPages) :: s.CreatePdf? ==>
      Extracted(env) && s.codes == Capped(env.codes.value, debugEnabled, maxPages)
      && s.codes != [] && s.caption == env.caption.value
  {
    var t := Run(env, debugEnabled, maxPages);
    if Extracted(env) && Capped(env.codes.value, debugEnabled, maxPages) != [] {
      var k := 5 + (if debugEnabled then 1 else 0);
      assert t[k].CreatePdf?;
    }
  }

  /** In debug mode the list is cut to its first `maxPages` codes, order kept; otherwise it is left alone. */
  lemma DebugCap(codes: seq<string>, debugEnabled: bool, maxPages: nat)
    ensures debugEnabled ==>
      Capped(codes, debugEnabled, maxPages) == codes[..if maxPages < |codes| then maxPages else |codes|]
    ensures !debugEnabled ==> Capped(codes, debugEnabled, maxPages) == codes
  {
  }

  /** With debugging on and a cap of zero, no PDF is built; the run reports that there are no codes. */
  lemma ZeroCapBuildsNothing(env: Environment)
    requires Extracted(env)
    ensures var t := Run(env, true, 0);
      (forall s <- t :: !s.CreatePdf?) && t[|t| - 1] == ShowNoCodes
  {
  }

  /**
   * Steps run in order: discovery first, then both prompts, then extraction,
   * each only after the one before it returned.
   */
  lemma StepOrder(env: Environment, debugEnabled: bool, maxPages: int)
    ensures var t := Run(env, debugEnabled, maxPages);
      (AskPageSize in t <==> env.excelFile.Success?)
      && (AskCaption in t <==> env.excelFile.Success? && env.sizeChoice.Success?)
      && (ExtractCodes in t <==> env.excelFile.Success? && env.sizeChoice.Success? && env.caption.Success?)
      && (ExtractCodes in t ==>
            t[..5] == Found(env.excelFile.value) + [AskCaption, ExtractCodes])
  {
  }

  /**
   * An error is reported only as the last step, so nothing runs after it,
   * and it is reported exactly when some step raised.
   */
  lemma ErrorEndsRun(env: Environment, debugEnabled: bool, maxPages: int)
    ensures var t := Run(env, debugEnabled, maxPages);
      (forall k :: 0 <= k < |t| - 1 ==> !t[k].ShowError?)
      && (t[|t| - 1].ShowError? <==>
            !Extracted(env) || (env.pdfError.Some? && Capped(env.codes.value, debugEnabled, maxPages) != []))
  {
  }
}
