# Python-to-C++ optimizer: verified model of its text logic

The program (`3PytoCpp.py`) is a small web page that sends Python code to a
locally running Ollama model, asks for a C++ rewrite, strips Markdown code
fences from the answer, and compiles and runs the result with `clang++`.
Almost all of it is glue around external processes. This project models the
parts that are logic and proves what they guarantee:

- **Fence stripping** (`Fences`). `write_output` stores
  `code.replace("```cpp", "").replace("```", "")` and `stream_ollama` yields
  `output.replace("```cpp\n", "").replace("```", "")`. Python's
  `str.replace` for a non-empty pattern is modelled as `PyStrings.ReplaceAll`
  (leftmost, non-overlapping, left-to-right scan). The central result is that
  neither chain ever leaves a triple backtick behind, whatever the input,
  although the first pass can create one by joining backtick runs. The proof
  tracks the leading run of backticks: removing "```" shrinks a maximal run of
  `k` backticks to `k % 3`. This run-based description is also given as a
  separate function (`CollapseRuns`), and it is proved equal to the `replace`
  call.
- **Prompt construction** (`Prompt`). `user_prompt_for`, the full prompt
  `system_message + "\n" + user_prompt_for(code)`, and the text actually
  written to the model's standard input (the prompt plus one `"\n"`). The
  code appears verbatim at the end, after a head that does not depend on it,
  and it can be read back from the payload.
- **Dispatch and outcome selection** (`Converter`). `optimize` accepts only
  the model name `"Ollama"`. `stream_ollama` yields exactly one cleaned
  output, and a timeout is not an error. `execute_cpp` writes the cleaned
  file, runs the binary only after a successful compile, and returns the run's
  output or `"An error occurred:\n"` followed by the failing step's error
  stream. The external processes are parameters: the model is a function from
  its input text to what `communicate` returns, the compiler is a function
  from the contents of `optimized.cpp` to its outcome, and the binary's run is
  an outcome.

A failed compile or run returns `"An error occurred:\n"` followed by that
step's error stream (3PytoCpp.py:113), not the bare error text;
`ExecuteCpp` and `ExecuteCppFailureReported` state this.

## Model

| member | source | states |
|---|---|---|
| PyStrings.ReplaceAllAbsent | 3PytoCpp.py:28 | `str.replace` returns its input unchanged when the pattern does not occur in it |
| PyStrings.ReplaceAllShortens | 3PytoCpp.py:28 | replacing a pattern by something shorter never lengthens the text, and strictly shortens it when the pattern occurs |
| PyStrings.ReplaceAllFixedIff | 3PytoCpp.py:28 | with a shorter replacement, `replace` is the identity on a text exactly when the pattern does not occur in it (both directions) |
| PyStrings.ContainsPrefixOf | 3PytoCpp.py:28 | wherever "```cpp" (or any longer marker) occurs, "```" occurs too |
| Fences.StripFencesRuns | 3PytoCpp.py:28 | after `.replace("```", "")` the leading backtick run has length `k % 3` for an input run of `k`, and the result never contains "```", for every input |
| Fences.StripRun | 3PytoCpp.py:28 | `.replace("```", "")` turns a leading run of `k` backticks into `k % 3` backticks and continues after the run |
| Fences.StripFencesCollapses | 3PytoCpp.py:28 | `.replace("```", "")` equals the run-based description: every maximal backtick run of length `k` becomes `k % 3` backticks and all other characters are kept |
| Fences.FenceNeedsTick | 3PytoCpp.py:28 | a text that contains "```" contains a backtick |
| Fences.CleanForFileNoFence | 3PytoCpp.py:28 | the text `write_output` writes never contains "```" |
| Fences.CleanStreamedNoFence | 3PytoCpp.py:64 | the text `stream_ollama` yields never contains "```" |
| Fences.CleanForFileFixedIff | 3PytoCpp.py:28 | `write_output`'s cleaning leaves a text unchanged exactly when it contains no "```" |
| Fences.CleanStreamedFixedIff | 3PytoCpp.py:64 | `stream_ollama`'s cleaning leaves a text unchanged exactly when it contains no "```" |
| Fences.CleanForFileIdempotent | 3PytoCpp.py:28 | cleaning already-cleaned text for the file changes nothing |
| Fences.CleanStreamedIdempotent | 3PytoCpp.py:64 | cleaning already-cleaned model output changes nothing |
| Fences.CleaningShrinks | 3PytoCpp.py:28 | neither cleaning chain makes a text longer |
| Fences.NoTickUnchanged | 3PytoCpp.py:28 | a text without a backtick passes through both cleaning chains unchanged |
| Fences.StreamedThenFileUnchanged | 3PytoCpp.py:95 | `execute_cpp`'s call to `write_output` does not change text exactly as `stream_ollama` yielded it |
| Fences.FirstPassJoinsRuns | 3PytoCpp.py:28 | removing "```cpp" from "``" + "```cpp" + "`" leaves "```", which the second pass then removes, leaving "" |
| Fences.StreamedKeepsBareTag | 3PytoCpp.py:64 | an opening "```cpp" with no newline after it loses only its backticks in `stream_ollama` and leaves "cpp", while `write_output` removes it entirely |
| Prompt.UserPromptShape | 3PytoCpp.py:17-24 | the user prompt starts with the fixed instructions, ends with the code verbatim, has their combined length, and its head is the same for every code |
| Prompt.UserPromptInjective | 3PytoCpp.py:17-24 | two codes with the same user prompt are equal |
| Prompt.FullPromptShape | 3PytoCpp.py:38 | the full prompt starts with the system message, then one newline, then the user prompt, and ends with the code |
| Prompt.PayloadShape | 3PytoCpp.py:55 | the model's input is the fixed head, the code verbatim and exactly one extra "\n", i.e. the full prompt with one newline appended |
| Prompt.PayloadRoundTrip | 3PytoCpp.py:55 | reading the code back from the model's input gives the code that was sent |
| Prompt.PayloadParsed | 3PytoCpp.py:55 | any text from which a code is read back is exactly that code's payload |
| Converter.StreamOllama | 3PytoCpp.py:32-64 | the generator yields exactly one value; it contains no "```", it is the model's output with "```cpp\n" removed and every backtick run reduced modulo 3, and it is no longer than that output |
| Converter.TimeoutYieldsPartialOutput | 3PytoCpp.py:53-58 | after a timeout the partial output is yielded exactly as a finished run's output would be, and the error stream never affects the result |
| Converter.Optimize | 3PytoCpp.py:66-77 | succeeds exactly when the model is "Ollama", then forwards what `stream_ollama` yields (all fence-free); any other name raises `ValueError("Unknown or unsupported model")` |
| Converter.ExecuteCpp | 3PytoCpp.py:90-113 | the file holds the cleaned, fence-free code; the binary runs exactly when compilation succeeds; a failed compile returns the prefix plus the compiler's error stream, a failed run returns the prefix plus the run's error stream, and a good run returns exactly its standard output |
| Converter.ExecuteCppFailureReported | 3PytoCpp.py:112-113 | when either step fails, the returned text is non-empty, starts with "An error occurred:\n", and continues with the failing step's error stream |
| Converter.ExecuteCppAmbiguous | 3PytoCpp.py:107-113 | a program that prints the error prefix followed by `e` shows the same text as a compile failure with error stream `e`, so the result alone cannot tell an error from output |

## Left out

- The Gradio page, its widgets, the event wiring and `ui.launch` (3PytoCpp.py:141-168). They are declarative UI with no logic.
- The process machinery: `Popen`, `communicate` with its 300-second timeout, `kill`, and the `clang++` and `./optimized` invocations (3PytoCpp.py:45-58, 97-110). These are external processes and wall-clock time. Only their outcomes enter the model, as parameters. The compiler flags, the model name `llama3.2` and the file names are therefore not modelled.
- A missing executable (`FileNotFoundError` from `ollama`, `clang++` or `./optimized`) is not modelled. It is not caught in the source and ends the handler.
- Decoding failures of the subprocess streams under `text=True` (`UnicodeDecodeError` from `communicate` or `subprocess.run`, uncaught in the source, so `execute_cpp` returns no string) are not modelled; `ProcResult` and `Communication` hold already-decoded text.
- The binary's run outcome is an independent parameter of `ExecuteCpp`. The model does not tie it to the compiled file, and it ignores the compiler's standard output, as the source does.
- `execute_python` (3PytoCpp.py:80-88) is not modelled. It runs arbitrary code with `exec` while the process-wide `sys.stdout` is redirected.
- The file write in `write_output` (3PytoCpp.py:29-30) is represented only by the text it stores (`CleanForFile`, `CppRun.sourceFile`). Overwriting the file on disk is I/O.
- The error-stream logging in `stream_ollama` (3PytoCpp.py:60-61) is I/O and is not modelled.
- The example program `python_hard` (3PytoCpp.py:121-139) is data and floating-point numerics.
- Converter.Optimize: `optimize` is a generator, so the source raises `ValueError` when the result is first iterated, not at the call. The model gives the outcome of consuming the generator.
- PyStrings.ReplaceAll: models `str.replace` only for a non-empty pattern, which is all the source uses. Python inserts the replacement between characters for an empty pattern, and that case is not modelled.
