/** The decisions `stream_ollama`, `optimize` and `execute_cpp` make
    (3PytoCpp.py:32-77, 90-113). The external processes are parameters:
    the model run as a function from the text written to its input to what
    `communicate` returns, the compiler as a function from the contents of
    `optimized.cpp` to its outcome, and the run of the binary as an
    outcome. */
module Converter {
  import opened PyStrings
  import opened Fences
  import opened Prompt

  /** What `process.communicate` hands back: the output of a run that ended
      within the timeout, or what was collected after the timeout fired and
      the process was killed. */
  datatype Communication =
    | Finished(stdout: string, stderr: string)
    | TimedOut(stdout: string, stderr: string)

  /** A call that returns a value or raises `ValueError`. */
  datatype Result<T> = Ok(value: T) | ValueError(message: string)

  /** The outcome of `subprocess.run(..., check=True, capture_output=True)`:
      a completed process, or a `CalledProcessError` carrying the captured
      error stream. */
  datatype ProcResult = Succeeded(stdout: string) | Failed(stderr: string)

  /** One call of `execute_cpp`: the text left in `optimized.cpp`, whether
      `./optimized` was started, and the string returned for display. */
  datatype CppRun = CppRun(sourceFile: string, binaryRan: bool, display: string)

  /** The only model name `optimize` accepts. */
  const OllamaChoice: string := "Ollama"
  const UnsupportedModel: string := "Unknown or unsupported model"
  const ErrorPrefix: string := "An error occurred:\n"

  /** The values the `stream_ollama` generator yields: exactly one, the
      model's output with its fences stripped, whether or not the timeout
      fired. */
  function StreamOllama(python: string, ollama: string -> Communication): (ys: seq<string>)
    ensures |ys| == 1
    ensures !Contains(ys[0], Fence)
    ensures ys[0] == CollapseRuns(ReplaceAll(ollama(Payload(python)).stdout, CppFenceLine, ""))
    ensures |ys[0]| <= |ollama(Payload(python)).stdout|
  {
    var output := ollama(Payload(python)).stdout;
    CleanStreamedNoFence(output);
    CleaningShrinks(output);
    StripFencesCollapses(ReplaceAll(output, CppFenceLine, ""));
    [CleanStreamed(output)]
  }

  /** The values `optimize` yields, or the error it raises. */
  function Optimize(python: string, model: string, ollama: string -> Communication): (r: Result<seq<string>>)
    ensures r.Ok? <==> model == OllamaChoice
    ensures r.ValueError? ==> r.message == UnsupportedModel
    ensures r.Ok? ==> r.value == StreamOllama(python, ollama)
    ensures r.Ok? ==> forall y :: y in r.value ==> !Contains(y, Fence)
  {
    if model == OllamaChoice then Ok(StreamOllama(python, ollama))
    else ValueError(UnsupportedModel)
  }

  /** `execute_cpp(code)`: write the cleaned code, compile it, run the
      binary only if compilation succeeded, and report either the run's
      output or the first failure's error stream. */
  function ExecuteCpp(code: string, compile: string -> ProcResult, run: ProcResult): (r: CppRun)
    ensures r.sourceFile == CleanForFile(code) && !Contains(r.sourceFile, Fence)
    ensures r.binaryRan <==> compile(r.sourceFile).Succeeded?
    ensures compile(r.sourceFile).Failed? ==> r.display == ErrorPrefix + compile(r.sourceFile).stderr
    ensures r.binaryRan && run.Failed? ==> r.display == ErrorPrefix + run.stderr
    ensures r.binaryRan && run.Succeeded? ==> r.display == run.stdout
  {
    var source := CleanForFile(code);
    CleanForFileNoFence(code);
    match compile(source)
    case Failed(err) => CppRun(source, false, ErrorPrefix + err)
    case Succeeded(_) =>
      match run
      case Failed(err) => CppRun(source, true, ErrorPrefix + err)
      case Succeeded(out) => CppRun(source, true, out)
  }

  /** A timeout is not an error: with the same output collected, a run that
      timed out yields what a finished run yields, whatever either wrote to
      its error stream. */
  lemma TimeoutYieldsPartialOutput(python: string, output: string, err1: string, err2: string)
    ensures StreamOllama(python, _ => TimedOut(output, err1)) == StreamOllama(python, _ => Finished(output, err2))
    ensures StreamOllama(python, _ => TimedOut(output, err1)) == [CleanStreamed(output)]
  {
  }

  /** Whenever compilation or the run fails, the displayed text is the error
      prefix followed by that step's error stream, and so is never empty. */
  lemma ExecuteCppFailureReported(code: string, compile: string -> ProcResult, run: ProcResult)
    requires compile(CleanForFile(code)).Failed? || run.Failed?
    ensures var r := ExecuteCpp(code, compile, run);
      ErrorPrefix <= r.display && |r.display| > 0 &&
      r.display[|ErrorPrefix|..] == (if r.binaryRan then run.stderr else compile(r.sourceFile).stderr)
  {
  }

  /** The displayed text alone does not tell an error report from program
      output: a program that prints the error prefix followed by `e` shows
      exactly what a compile failure with error stream `e` shows. */
  lemma ExecuteCppAmbiguous(code: string, e: string)
    ensures var failed := ExecuteCpp(code, _ => Failed(e), Succeeded(""));
      var printed := ExecuteCpp(code, _ => Succeeded(""), Succeeded(ErrorPrefix + e));
      failed.display == printed.display && !failed.binaryRan && printed.binaryRan
  {
  }
}
