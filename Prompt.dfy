/** The prompt sent to the local model: `user_prompt_for`
    (3PytoCpp.py:17-24), the full prompt assembled in `stream_ollama`
    (line 38) and the text written to the model's standard input (line 55). */
module Prompt {
  import opened PyStrings

  datatype Option<T> = None | Some(value: T)

  /** The fixed system message (3PytoCpp.py:11-15). */
  const SystemMessage: string :=
    "You are an assistant that reimplements Python code in high performance C++ for an M2 Mac. "
    + "Respond only with C++ code; use comments sparingly and do not provide any explanation other than occasional comments. "
    + "The C++ response needs to produce an identical output in the fastest possible time."

  /** The fixed instructions `user_prompt_for` puts before the code. */
  const UserInstructions: string :=
    "Rewrite this Python code in C++ with the fastest possible implementation that produces identical output in the least time. "
    + "Respond only with C++ code; do not explain your work other than a few comments. "
    + "Pay attention to number types to ensure no int overflows. Remember to #include all necessary C++ packages such as iomanip.\n\n"

  /** Everything the model receives before the user's code. */
  const PromptHead: string := SystemMessage + "\n" + UserInstructions

  /** `user_prompt_for(python_code)`. */
  function UserPromptFor(code: string): string {
    UserInstructions + code
  }

  /** `prompt` in `stream_ollama`: `system_message + "\n" + user_prompt_for(code)`. */
  function FullPrompt(code: string): string {
    SystemMessage + "\n" + UserPromptFor(code)
  }

  /** What `communicate(input=prompt + "\n")` writes to the model's input. */
  function Payload(code: string): string {
    FullPrompt(code) + "\n"
  }

  /** Recovers the code from a payload, if the text has the payload's shape. */
  function CodeOfPayload(p: string): Option<string> {
    if PromptHead <= p && |PromptHead| < |p| && p[|p| - 1] == '\n'
    then Some(p[|PromptHead|..|p| - 1])
    else None
  }

  /** `head + body` starts with `head`, ends with `body`, and `body` is what
      follows `head`. */
  lemma Joined(head: string, body: string)
    ensures head <= head + body
    ensures (head + body)[|head|..] == body
    ensures EndsWith(head + body, body)
  {
    var j := head + body;
    assert j[|j| - |body|..] == body;
  }

  /** The user prompt is the fixed instructions followed by the code
      verbatim: the code is a suffix, and the prefix is the same for every
      code. */
  lemma UserPromptShape(code: string, other: string)
    ensures UserInstructions <= UserPromptFor(code)
    ensures EndsWith(UserPromptFor(code), code)
    ensures |UserPromptFor(code)| == |UserInstructions| + |code|
    ensures UserPromptFor(code)[..|UserInstructions|] == UserPromptFor(other)[..|UserInstructions|]
  {
    Joined(UserInstructions, code);
    Joined(UserInstructions, other);
  }

  /** Different code gives different user prompts. */
  lemma UserPromptInjective(c1: string, c2: string)
    requires UserPromptFor(c1) == UserPromptFor(c2)
    ensures c1 == c2
  {
    Joined(UserInstructions, c1);
    Joined(UserInstructions, c2);
  }

  /** The full prompt starts with the system message, then one newline,
      then the user prompt, and ends with the code. */
  lemma FullPromptShape(code: string)
    ensures SystemMessage <= FullPrompt(code)
    ensures FullPrompt(code)[|SystemMessage|] == '\n'
    ensures FullPrompt(code)[|SystemMessage| + 1..] == UserPromptFor(code)
    ensures PromptHead <= FullPrompt(code)
    ensures EndsWith(FullPrompt(code), code)
  {
    Nested(SystemMessage, UserInstructions, code);
  }

  /** The model's input is the full prompt with exactly one newline
      appended: the fixed head, the code verbatim, then "\n". */
  lemma PayloadShape(code: string)
    ensures Payload(code) == PromptHead + code + "\n"
    ensures Payload(code)[..|Payload(code)| - 1] == FullPrompt(code)
    ensures EndsWith(Payload(code), code + "\n")
  {
    PayloadLayout(SystemMessage, UserInstructions, code);
  }

  /** The shape of `sys + "\n" + (user + code)`. */
  lemma Nested(sys: string, user: string, code: string)
    ensures var f := sys + "\n" + (user + code);
      f == (sys + "\n" + user) + code &&
      sys <= f && f[|sys|] == '\n' && f[|sys| + 1..] == user + code &&
      sys + "\n" + user <= f && EndsWith(f, code) &&
      (f + "\n")[..|f + "\n"| - 1] == f
  {
    var f := sys + "\n" + (user + code);
    Joined(sys + "\n" + user, code);
    assert f[|f| - |code|..] == code;
    assert (f + "\n")[..|f|] == f;
  }

  /** The shape of `sys + "\n" + (user + code) + "\n"`. */
  lemma PayloadLayout(sys: string, user: string, code: string)
    ensures var f := sys + "\n" + (user + code);
      var p := f + "\n";
      p == sys + "\n" + user + code + "\n" &&
      p[..|p| - 1] == f && EndsWith(p, code + "\n")
  {
    var f := sys + "\n" + (user + code);
    var p := f + "\n";
    assert p[..|p| - 1] == f;
    assert p[|p| - |code| - 1..] == code + "\n";
  }

  /** Reading the code back from the payload gives the code that was sent. */
  lemma PayloadRoundTrip(code: string)
    ensures CodeOfPayload(Payload(code)) == Some(code)
  {
    PayloadShape(code);
    Unframed(PromptHead, code);
  }

  /** The text between `head` and a final newline is what was put there. */
  lemma Unframed(head: string, code: string)
    ensures var p := head + code + "\n";
      head <= p && |head| < |p| && p[|p| - 1] == '\n' && p[|head|..|p| - 1] == code
  {
    var p := head + code + "\n";
    assert p[|head|..|p| - 1] == code;
  }

  /** Every text from which a code is read back is the payload of that code. */
  lemma PayloadParsed(p: string, code: string)
    requires CodeOfPayload(p) == Some(code)
    ensures Payload(code) == p
  {
    PayloadShape(code);
    SplitFramed(PromptHead, p);
  }

  /** A text that starts with `head` and ends with a newline is `head`, the
      text between, and the newline. */
  lemma SplitFramed(head: string, p: string)
    requires head <= p && |head| < |p| && p[|p| - 1] == '\n'
    ensures p == head + p[|head|..|p| - 1] + "\n"
  {
    assert p == p[..|head|] + p[|head|..|p| - 1] + p[|p| - 1..];
  }
}
