/**
 * The `convert` command (main.py, lines 17-91): collect the image files of a
 * directory, convert each one independently, count successes and failures,
 * and decide the exit status.
 *
 * The image library is abstracted as two functions given as parameters:
 * `decode` opens a file and yields its mode and transparency flag or an
 * error message; `encode` performs the WebP save of a request and yields
 * whether the save of a request for a given file succeeded. The save
 * outcome depends on the file and not only on the request, since the pixel
 * data being encoded is that file's.
 */
module Converter {
  import opened Wrappers
  import ColourMode
  import FileNames

  /** What the script reads from an opened image: its mode and whether its info declares transparency. */
  datatype Image = Image(mode: string, hasTransparency: bool)

  /** One call of the WebP save: output name, mode of the image saved, quality. */
  datatype SaveRequest = SaveRequest(output: string, mode: string, quality: int)

  /** The per-file line that the loop reports. */
  datatype FileReport =
    | Converted(source: string, request: SaveRequest)
    | OpenFailed(source: string, message: string)
    | SaveFailed(source: string, request: SaveRequest, message: string)
  {
    /** Whether a save was attempted for this file. */
    predicate SaveAttempted() {
      !OpenFailed?
    }
  }

  /** The outcome of one WebP save. */
  datatype SaveOutcome = Saved | SaveError(message: string)

  type Decoder = string -> Result<Image, string>
  type Encoder = (string, SaveRequest) -> SaveOutcome

  /**
   * One iteration of the loop body (lines 56-84): derive the output name,
   * open the file, normalise its mode and save it at the given quality. An
   * error raised by opening or saving makes the report a failure.
   */
  function ConvertOne(file: string, quality: int, decode: Decoder, encode: Encoder): (r: FileReport)
    requires file != ""
    ensures r.source == file
    ensures r.OpenFailed? <==> decode(file).Failure?
    ensures r.SaveAttempted() ==>
      && r.request.output == FileNames.WebpName(file)
      && r.request.quality == quality
      && ColourMode.IsEncodable(r.request.mode)
      && r.request.mode == ColourMode.EncodedMode(decode(file).value.mode, decode(file).value.hasTransparency)
    ensures r.Converted? <==> r.SaveAttempted() && encode(file, r.request).Saved?
  {
    match decode(file)
    case Failure(message) => OpenFailed(file, message)
    case Success(image) =>
      var request := SaveRequest(
        FileNames.WebpName(file),
        ColourMode.EncodedMode(image.mode, image.hasTransparency),
        quality);
      match encode(file, request)
      case Saved => Converted(file, request)
      case SaveError(message) => SaveFailed(file, request, message)
  }

  /** The number of reports that are successes. */
  function CountConverted(reports: seq<FileReport>): nat {
    if reports == [] then 0
    else CountConverted(reports[..|reports| - 1]) + (if reports[|reports| - 1].Converted? then 1 else 0)
  }

  /** The number of reports that are failures. */
  function CountFailed(reports: seq<FileReport>): nat {
    if reports == [] then 0
    else CountFailed(reports[..|reports| - 1]) + (if reports[|reports| - 1].Converted? then 0 else 1)
  }

  /** Every report is counted exactly once, as a success or as a failure. */
  lemma {:induction false} CountsPartition(reports: seq<FileReport>)
    ensures CountConverted(reports) + CountFailed(reports) == |reports|
  {
    if reports != [] {
      CountsPartition(reports[..|reports| - 1]);
    }
  }

  /** The failure count is positive exactly when some file failed. */
  lemma {:induction false} FailedCountPositive(reports: seq<FileReport>)
    ensures CountFailed(reports) > 0 <==> exists i :: 0 <= i < |reports| && !reports[i].Converted?
  {
    if reports != [] {
      var init := reports[..|reports| - 1];
      FailedCountPositive(init);
      assert forall i :: 0 <= i < |init| ==> init[i] == reports[i];
    }
  }

  /** Nothing failed exactly when every file was converted. */
  lemma AllConvertedIffNoFailure(reports: seq<FileReport>)
    ensures CountConverted(reports) == |reports| <==> CountFailed(reports) == 0
  {
    CountsPartition(reports);
  }

  /**
   * The conversion loop of lines 52-84 with its two counters. Each file gets
   * exactly one attempt, and its report depends on that file alone: a
   * failure does not stop or influence the processing of later files.
   */
  method ConvertFiles(files: seq<string>, quality: int, decode: Decoder, encode: Encoder)
    returns (reports: seq<FileReport>, converted: nat, errors: nat)
    requires forall i :: 0 <= i < |files| ==> files[i] != ""
    ensures |reports| == |files|
    ensures forall i :: 0 <= i < |files| ==> reports[i] == ConvertOne(files[i], quality, decode, encode)
    ensures converted == CountConverted(reports) && errors == CountFailed(reports)
    ensures converted + errors == |files|
  {
    reports, converted, errors := [], 0, 0;
    var i := 0;
    while i < |files|
      invariant 0 <= i <= |files|
      invariant |reports| == i
      invariant forall k :: 0 <= k < i ==> reports[k] == ConvertOne(files[k], quality, decode, encode)
      invariant converted == CountConverted(reports) && errors == CountFailed(reports)
      invariant converted + errors == i
    {
      var report := ConvertOne(files[i], quality, decode, encode);
      if report.Converted? {
        converted := converted + 1;
      } else {
        errors := errors + 1;
      }
      assert (reports + [report])[..i] == reports;
      reports := reports + [report];
      i := i + 1;
    }
  }

  /**
   * The exit status (lines 46-48 and 89-91): 0 when no file was found, 1 when
   * any file failed, 0 otherwise.
   */
  function ExitStatus(found: nat, errors: nat): (code: int)
    requires errors <= found
    ensures code == 0 || code == 1
    ensures code == 1 <==> errors > 0
    ensures found == 0 ==> code == 0
  {
    if found == 0 then 0
    else if errors > 0 then 1
    else 0
  }

  /**
   * The whole command. `entries` is the directory listing and `quality` the
   * validated `--quality` option. When no image is found the command returns
   * at once with status 0 and attempts nothing; otherwise it converts every
   * collected file, passing the same quality to every save, and the status
   * is 1 exactly when some file failed.
   */
  method Convert(entries: seq<string>, quality: int, decode: Decoder, encode: Encoder)
    returns (status: int, files: seq<string>, reports: seq<FileReport>, converted: nat, errors: nat)
    requires 1 <= quality <= 100
    ensures multiset(files) == multiset(FileNames.ImageNames(entries))
    ensures FileNames.Distinct(entries) ==> FileNames.Distinct(files)
    ensures files == [] ==> reports == [] && converted == 0 && errors == 0 && status == 0
    ensures |reports| == |files|
    ensures forall i :: 0 <= i < |files| ==> files[i] != "" && reports[i] == ConvertOne(files[i], quality, decode, encode)
    ensures converted == CountConverted(reports) && errors == CountFailed(reports)
    ensures converted + errors == |files|
    ensures status == 1 <==> exists i :: 0 <= i < |reports| && !reports[i].Converted?
    ensures status == 0 || status == 1
    ensures forall i :: 0 <= i < |reports| && reports[i].SaveAttempted() ==>
      reports[i].request.quality == quality && 1 <= reports[i].request.quality <= 100
  {
    files := FileNames.CollectImageFiles(entries);
    forall i | 0 <= i < |files|
      ensures files[i] != ""
    {
      assert files[i] in files;
      FileNames.ImageNameNotEmpty(files[i]);
    }
    if files == [] {
      status, reports, converted, errors := 0, [], 0, 0;
      return;
    }
    reports, converted, errors := ConvertFiles(files, quality, decode, encode);
    FailedCountPositive(reports);
    status := ExitStatus(|files|, errors);
  }
}
