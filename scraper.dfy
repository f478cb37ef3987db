/**
  The scraper object and its two entry points: the Start button (`startScraping`) and the
  command line (`main`).  `processSVGFile` is the loop itself, proved to do what
  `Extraction.Run` describes.
*/
module Scraper {
  import opened Wrappers
  import opened Base64
  import opened DataUri
  import opened Paths
  import opened Disks
  import opened Extraction

  /** The file behind a pathname as the host resolves it: normalised, and made absolute
      against the working directory `cwd`. */
  function HostPath(path: string, cwd: string): string
  {
    Absolute(Normalize(path), cwd)
  }

  /** `File.isFile()`, which also implies `File.exists()`. */
  predicate IsRegularFile(d: Disk, path: string)
  {
    path in d.files && path !in d.dirs
  }

  /** How the program started from the command line went on. */
  datatype Launch =
    | GuiLaunched
    | InvalidFile
    | Processed(outputDir: string, messages: seq<string>, thrown: Option<Unchecked>)

  /** The `JTextArea` the messages go to; its text is kept as its sequence of lines. */
  class TextArea {
    var lines: seq<string>

    constructor ()
      ensures lines == []
    {
      lines := [];
    }

    /** `append(line + "\n")`. */
    method Append(line: string)
      modifies this
      ensures lines == old(lines) + [line]
    {
      lines := lines + [line];
    }

    /** `setText("")`. */
    method Clear()
      modifies this
      ensures lines == []
    {
      lines := [];
    }
  }

  /** The window's state that the scraping touches: the two text fields and the output
      area. */
  class SvgScraper {
    var htmlFileField: string
    var outputDirField: string
    const outputArea: TextArea

    constructor ()
      ensures htmlFileField == "" && outputDirField == "" && outputArea.lines == []
      ensures fresh(outputArea)
    {
      htmlFileField, outputDirField := "", "";
      outputArea := new TextArea();
    }

    /** `processSVGFile(htmlFile, outputDir)`: creates the directory, reads the HTML file and
        extracts its images.  An `IOException`, from reading or from writing an image, appends
        one error line; an unchecked exception is passed on to the caller with nothing more
        appended; otherwise the done line ends the output. */
    method ProcessSvgFile(fs: FileSystem, htmlFile: string, outputDir: string,
                          parse: seq<Byte> -> seq<string>, recode: seq<Byte> -> seq<Byte>)
      returns (thrown: Option<Unchecked>)
      modifies outputArea, fs
      ensures var r := Run(old(fs.State()), htmlFile, outputDir, parse, recode);
              && fs.State() == r.disk
              && outputArea.lines == old(outputArea.lines) + r.messages
              && thrown == r.thrown
    {
      fs.MakeDirs(outputDir);
      var read := fs.ReadAllBytes(htmlFile);
      if read.Failure? {
        outputArea.Append(ErrorLine(read.error));
        return None;
      }
      var stop := ExtractImages(fs, parse(read.value), outputDir, recode);
      match stop {
        case Running =>
          outputArea.Append(DoneLine);
          thrown := None;
        case IoFailure(message) =>
          outputArea.Append(ErrorLine(message));
          thrown := None;
        case Thrown(e) =>
          thrown := Some(e);
      }
    }

    /** The loop of `processSVGFile` over the `src` values in document order: it counts the
        qualifying ones and writes each decoded image as `svg_image_<N>.svg`, appending a saved
        line for each, until the first exception, which it returns in `stop`. */
    method ExtractImages(fs: FileSystem, srcs: seq<string>, outputDir: string, recode: seq<Byte> -> seq<Byte>)
      returns (stop: Stop)
      modifies outputArea, fs
      ensures var st := LoopOver(srcs, outputDir, old(fs.State()), recode);
              && fs.State() == st.disk
              && outputArea.lines == old(outputArea.lines) + st.saved
              && stop == st.stop
    {
      ghost var d1 := fs.State();
      ghost var area0 := outputArea.lines;
      var svgCounter: nat := 0;
      stop := Running;
      ghost var saved: seq<string> := [];
      ghost var tr := LoopTrace(srcs, outputDir, d1, recode);
      var i := 0;
      while i < |srcs|
        invariant 0 <= i <= |srcs|
        invariant outputArea.lines == area0 + saved
        invariant tr[i] == LoopState(fs.State(), svgCounter, saved, Running)
        invariant stop == Running
      {
        ghost var line: seq<string>;
        svgCounter, stop, line := ScrapeAt(fs, srcs, i, outputDir, recode, svgCounter, saved, d1, tr);
        saved := saved + line;
        if !stop.Running? {
          assert tr[|srcs|] == tr[i + 1];
          return;
        }
        i := i + 1;
      }
    }

    /** The loop body for `srcs[i]`: it moves the loop from `tr[i]`, the state before
        `srcs[i]`, to `tr[i + 1]`; `saved` is the ghost record of the lines appended so far. */
    method ScrapeAt(fs: FileSystem, srcs: seq<string>, i: nat, outputDir: string,
                    recode: seq<Byte> -> seq<Byte>, svgCounter: nat, ghost saved: seq<string>,
                    ghost d1: Disk, ghost tr: seq<LoopState>)
      returns (counter: nat, stop: Stop, ghost line: seq<string>)
      requires i < |srcs| && IsTrace(tr, srcs, outputDir, d1, recode)
      requires tr[i] == LoopState(fs.State(), svgCounter, saved, Running)
      modifies outputArea, fs
      ensures tr[i + 1] == LoopState(fs.State(), counter, saved + line, stop)
      ensures outputArea.lines == old(outputArea.lines) + line
    {
      counter, stop, line := ScrapeSource(fs, srcs[i], outputDir, recode, svgCounter, saved);
    }

    /** One pass of the loop body for `src`, the counter standing at `svgCounter`: a
        qualifying `src` is counted and its image written, one saved line being appended
        (`line`); an exception is reported in `stop` instead.  `saved` is the ghost record of
        the lines appended so far. */
    method ScrapeSource(fs: FileSystem, src: string, outputDir: string, recode: seq<Byte> -> seq<Byte>,
                        svgCounter: nat, ghost saved: seq<string>)
      returns (counter: nat, stop: Stop, ghost line: seq<string>)
      modifies outputArea, fs
      ensures Step(LoopState(old(fs.State()), svgCounter, saved, Running), src, outputDir, recode)
              == LoopState(fs.State(), counter, saved + line, stop)
      ensures outputArea.lines == old(outputArea.lines) + line
    {
      ghost var st := LoopState(fs.State(), svgCounter, saved, Running);
      counter, stop, line := svgCounter, Running, [];
      if !Qualifies(src) {
        return;
      }
      StepQualifying(st, src, outputDir, recode);
      counter := svgCounter + 1;
      var payload := PayloadOf(src);
      if payload.None? {
        stop := Thrown(ArrayIndexOutOfBounds);
        return;
      }
      var svgBytes := Decode(payload.value);
      if svgBytes.None? {
        stop := Thrown(IllegalArgument);
        return;
      }
      var svgFilePath := FilePath(outputDir, counter);
      var error := fs.WriteFile(outputDir, svgFilePath, recode(svgBytes.value));
      if error.Some? {
        stop := IoFailure(error.value);
        return;
      }
      outputArea.Append(SavedLine(svgFilePath));
      line := [SavedLine(svgFilePath)];
    }

    /** `startScraping()`: without an HTML file the user is prompted and nothing happens;
        otherwise an empty output-directory field is filled with the `images` folder beside
        the HTML file, the output area is cleared and the file is processed.  The background
        worker keeps an unchecked exception to itself, so it is not passed on. */
    method StartScraping(fs: FileSystem, cwd: string, parse: seq<Byte> -> seq<string>,
                         recode: seq<Byte> -> seq<Byte>)
      returns (prompted: bool)
      modifies this, outputArea, fs
      ensures prompted <==> old(htmlFileField) == ""
      ensures prompted ==> outputArea.lines == old(outputArea.lines) && outputDirField == old(outputDirField)
                           && fs.State() == old(fs.State())
      ensures !prompted ==>
                var dir := if old(outputDirField) == "" then DefaultOutputDir(old(htmlFileField), cwd)
                           else old(outputDirField);
                var r := Run(old(fs.State()), HostPath(old(htmlFileField), cwd), dir, parse, recode);
                && outputDirField == dir
                && outputArea.lines == r.messages
                && fs.State() == r.disk
      ensures htmlFileField == old(htmlFileField)
    {
      var htmlFilePath := htmlFileField;
      var outputDir := outputDirField;
      if htmlFilePath == "" {
        return true;
      }
      if outputDir == "" {
        outputDir := DefaultOutputDir(htmlFilePath, cwd);
        outputDirField := outputDir;
      }
      outputArea.Clear();
      var _ := ProcessSvgFile(fs, HostPath(htmlFilePath, cwd), outputDir, parse, recode);
      return false;
    }
  }

  /** `main(args)`: with no argument the window is opened; otherwise the first argument must
      name an existing regular file, which is processed into the `images` folder beside it. */
  method CommandLine(args: seq<string>, fs: FileSystem, cwd: string,
                     parse: seq<Byte> -> seq<string>, recode: seq<Byte> -> seq<Byte>)
    returns (outcome: Launch)
    modifies fs
    ensures |args| == 0 ==> outcome == GuiLaunched && fs.State() == old(fs.State())
    ensures |args| > 0 && !IsRegularFile(old(fs.State()), HostPath(args[0], cwd)) ==>
              outcome == InvalidFile && fs.State() == old(fs.State())
    ensures |args| > 0 && IsRegularFile(old(fs.State()), HostPath(args[0], cwd)) ==>
              var dir := DefaultOutputDir(args[0], cwd);
              var r := Run(old(fs.State()), HostPath(args[0], cwd), dir, parse, recode);
              outcome == Processed(dir, r.messages, r.thrown) && fs.State() == r.disk
  {
    if |args| == 0 {
      return GuiLaunched;
    }
    var filePath := args[0];
    var htmlFile := HostPath(filePath, cwd);
    if !IsRegularFile(fs.State(), htmlFile) {
      return InvalidFile;
    }
    var outputDir := DefaultOutputDir(filePath, cwd);
    var scraper := new SvgScraper();
    var thrown := scraper.ProcessSvgFile(fs, htmlFile, outputDir, parse, recode);
    return Processed(outputDir, scraper.outputArea.lines, thrown);
  }
}
