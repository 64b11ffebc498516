/** The two chains of `str.replace` calls that strip Markdown code-fence
    markers from generated C++ text (3PytoCpp.py, lines 28 and 64), and the
    guarantee that neither leaves a triple backtick behind. */
module Fences {
  import opened PyStrings

  const Tick: char := '`'
  /** The bare fence marker. */
  const Fence: string := "```"
  /** The opening marker with its language tag, as removed by `write_output`. */
  const CppFence: string := "```cpp"
  /** The opening marker line, as removed by `stream_ollama`. */
  const CppFenceLine: string := "```cpp\n"

  /** The second pass of both chains: `s.replace("```", "")`. */
  function StripFences(s: string): string {
    ReplaceAll(s, Fence, "")
  }

  /** The text `write_output` stores in `optimized.cpp`:
      `code.replace("```cpp", "").replace("```", "")`. */
  function CleanForFile(code: string): string {
    StripFences(ReplaceAll(code, CppFence, ""))
  }

  /** The text `stream_ollama` yields:
      `output.replace("```cpp\n", "").replace("```", "")`. */
  function CleanStreamed(output: string): string {
    StripFences(ReplaceAll(output, CppFenceLine, ""))
  }

  /** The number of backticks `s` starts with. */
  function Lead(s: string): (k: nat)
    ensures k <= |s|
  {
    if s != [] && s[0] == Tick then 1 + Lead(s[1..]) else 0
  }

  /** `n` backticks. */
  function Ticks(n: nat): (t: string)
    ensures |t| == n
  {
    if n == 0 then [] else [Tick] + Ticks(n - 1)
  }

  /** An independent description of fence stripping: every maximal run of
      `k` backticks shrinks to `k % 3` backticks and every other character
      is kept. */
  function CollapseRuns(s: string): string
    decreases |s|
  {
    if s == [] then []
    else if s[0] != Tick then [s[0]] + CollapseRuns(s[1..])
    else Ticks(Lead(s) % 3) + CollapseRuns(s[Lead(s)..])
  }

  /** Dropping `k` leading backticks lowers the leading count by `k`. */
  lemma {:induction false} LeadDrop(s: string, k: nat)
    requires k <= Lead(s)
    ensures Lead(s[k..]) == Lead(s) - k
    decreases k
  {
    if k > 0 {
      LeadDrop(s[1..], k - 1);
      assert s[1..][k - 1..] == s[k..];
    }
  }

  /** `s` starts with a fence exactly when it starts with three backticks. */
  lemma LeadFence(s: string)
    ensures Fence <= s <==> Lead(s) >= 3
  {
    if |s| >= 3 {
      var t := s[1..];
      var u := t[1..];
      assert t[0] == s[1] && u[0] == s[2];
      assert Lead(s) >= 3 <==> s[0] == Tick && Lead(t) >= 2;
      assert Lead(t) >= 2 <==> t[0] == Tick && Lead(u) >= 1;
      if s[0] == Tick && s[1] == Tick && s[2] == Tick {
        assert s[..3] == Fence;
      }
    }
  }

  /** Fence stripping reduces the leading run of backticks modulo 3, and its
      result never contains a fence, whatever the input. */
  lemma {:induction false} StripFencesRuns(s: string)
    ensures Lead(StripFences(s)) == Lead(s) % 3
    ensures !Contains(StripFences(s), Fence)
    decreases |s|
  {
    if Fence <= s {
      StripFencesRuns(s[3..]);
      StripFencesAtFence(s);
    } else if s != [] {
      StripFencesRuns(s[1..]);
      StripFencesAtChar(s);
    }
  }

  /** The step of `StripFencesRuns` for a text that starts with a fence. */
  lemma StripFencesAtFence(s: string)
    requires Fence <= s
    requires Lead(StripFences(s[3..])) == Lead(s[3..]) % 3
    ensures StripFences(s) == StripFences(s[3..])
    ensures Lead(StripFences(s)) == Lead(s) % 3
  {
    LeadFence(s);
    LeadDrop(s, 3);
    var k := Lead(s);
    assert (k - 3) % 3 == k % 3;
  }

  /** The step of `StripFencesRuns` for a text that starts with a character
      that does not open a fence. */
  lemma StripFencesAtChar(s: string)
    requires s != [] && !(Fence <= s)
    requires Lead(StripFences(s[1..])) == Lead(s[1..]) % 3
    requires !Contains(StripFences(s[1..]), Fence)
    ensures Lead(StripFences(s)) == Lead(s) % 3
    ensures !Contains(StripFences(s), Fence)
  {
    var rest := StripFences(s[1..]);
    var r := [s[0]] + rest;
    StripFencesCons(s);
    ContainsCons(s[0], rest, Fence);
    assert r[0..] == r;
    LeadFence(r);
    if s[0] == Tick {
      LeadFence(s);
      LeadDrop(s, 1);
      LeadDrop(r, 1);
      assert r[1..] == rest;
      var k := Lead(s[1..]);
      assert k < 2;
      assert k % 3 == k && (k + 1) % 3 == k + 1;
    }
  }

  /** Fence stripping removes a whole leading run of `k` backticks but for
      `k % 3` of them, then carries on after the run. */
  lemma {:induction false} StripRun(s: string)
    ensures StripFences(s) == Ticks(Lead(s) % 3) + StripFences(s[Lead(s)..])
    decreases |s|
  {
    var k := Lead(s);
    if k >= 3 {
      LeadFence(s);
      LeadDrop(s, 3);
      StripRun(s[3..]);
      StripRunAtFence(s);
    } else if k > 0 {
      LeadFence(s);
      LeadDrop(s, 1);
      StripRun(s[1..]);
      StripRunAtTick(s);
    }
  }

  /** The step of `StripRun` for a run of three backticks or more. */
  lemma StripRunAtFence(s: string)
    requires Lead(s) >= 3 && Fence <= s && Lead(s[3..]) == Lead(s) - 3
    requires StripFences(s[3..]) == Ticks(Lead(s[3..]) % 3) + StripFences(s[3..][Lead(s[3..])..])
    ensures StripFences(s) == Ticks(Lead(s) % 3) + StripFences(s[Lead(s)..])
  {
    var k := Lead(s);
    assert s[3..][k - 3..] == s[k..];
    assert Ticks((k - 3) % 3) == Ticks(k % 3) by {
      assert (k - 3) % 3 == k % 3;
    }
    assert StripFences(s) == StripFences(s[3..]);
  }

  /** The step of `StripRun` for a run of one or two backticks. */
  lemma StripRunAtTick(s: string)
    requires 0 < Lead(s) < 3 && !(Fence <= s) && Lead(s[1..]) == Lead(s) - 1
    requires StripFences(s[1..]) == Ticks(Lead(s[1..]) % 3) + StripFences(s[1..][Lead(s[1..])..])
    ensures StripFences(s) == Ticks(Lead(s) % 3) + StripFences(s[Lead(s)..])
  {
    var k := Lead(s);
    var after := StripFences(s[k..]);
    assert s[1..][k - 1..] == s[k..];
    assert k % 3 == k && (k - 1) % 3 == k - 1;
    assert StripFences(s[1..]) == Ticks(k - 1) + after;
    assert StripFences(s) == [Tick] + StripFences(s[1..]) by {
      assert s[0] == Tick;
      StripFencesCons(s);
    }
    assert Ticks(k) + after == [Tick] + (Ticks(k - 1) + after);
  }

  /** Off a fence, fence stripping keeps the first character. */
  lemma StripFencesCons(s: string)
    requires s != [] && !(Fence <= s)
    ensures StripFences(s) == [s[0]] + StripFences(s[1..])
  {
  }

  /** Fence stripping agrees with the run-based description. */
  lemma {:induction false} StripFencesCollapses(s: string)
    ensures StripFences(s) == CollapseRuns(s)
    decreases |s|
  {
    if s != [] {
      if s[0] != Tick {
        LeadFence(s);
        StripFencesCollapses(s[1..]);
      } else {
        StripRun(s);
        StripFencesCollapses(s[Lead(s)..]);
      }
    }
  }

  /** A text that holds a fence holds a backtick. */
  lemma FenceNeedsTick(s: string)
    ensures Contains(s, Fence) ==> Tick in s
  {
    if Contains(s, Fence) {
      var i :| 0 <= i <= |s| && Occurs(s, Fence, i);
      assert s[i..][0] == Fence[0];
      assert s[i] == Tick;
    }
  }

  /** The text `write_output` stores never contains a fence. */
  lemma CleanForFileNoFence(code: string)
    ensures !Contains(CleanForFile(code), Fence)
  {
    StripFencesRuns(ReplaceAll(code, CppFence, ""));
  }

  /** The text `stream_ollama` yields never contains a fence. */
  lemma CleanStreamedNoFence(output: string)
    ensures !Contains(CleanStreamed(output), Fence)
  {
    StripFencesRuns(ReplaceAll(output, CppFenceLine, ""));
  }

  /** `write_output`'s cleaning leaves a text unchanged exactly when it holds
      no fence. */
  lemma CleanForFileFixedIff(code: string)
    ensures CleanForFile(code) == code <==> !Contains(code, Fence)
  {
    if !Contains(code, Fence) {
      ContainsPrefixOf(code, Fence, CppFence);
      ReplaceAllAbsent(code, CppFence, "");
      ReplaceAllAbsent(code, Fence, "");
    } else {
      CleanForFileNoFence(code);
    }
  }

  /** `stream_ollama`'s cleaning leaves a text unchanged exactly when it
      holds no fence. */
  lemma CleanStreamedFixedIff(output: string)
    ensures CleanStreamed(output) == output <==> !Contains(output, Fence)
  {
    if !Contains(output, Fence) {
      ContainsPrefixOf(output, Fence, CppFenceLine);
      ReplaceAllAbsent(output, CppFenceLine, "");
      ReplaceAllAbsent(output, Fence, "");
    } else {
      CleanStreamedNoFence(output);
    }
  }

  /** Cleaning twice is cleaning once. */
  lemma CleanForFileIdempotent(code: string)
    ensures CleanForFile(CleanForFile(code)) == CleanForFile(code)
  {
    CleanForFileNoFence(code);
    CleanForFileFixedIff(CleanForFile(code));
  }

  /** Cleaning twice is cleaning once. */
  lemma CleanStreamedIdempotent(output: string)
    ensures CleanStreamed(CleanStreamed(output)) == CleanStreamed(output)
  {
    CleanStreamedNoFence(output);
    CleanStreamedFixedIff(CleanStreamed(output));
  }

  /** Neither cleaning lengthens the text. */
  lemma CleaningShrinks(s: string)
    ensures |CleanForFile(s)| <= |s|
    ensures |CleanStreamed(s)| <= |s|
  {
    ReplaceAllShortens(s, CppFence, "");
    ReplaceAllShortens(ReplaceAll(s, CppFence, ""), Fence, "");
    ReplaceAllShortens(s, CppFenceLine, "");
    ReplaceAllShortens(ReplaceAll(s, CppFenceLine, ""), Fence, "");
  }

  /** A text without a backtick passes through both cleanings unchanged. */
  lemma NoTickUnchanged(s: string)
    requires Tick !in s
    ensures CleanForFile(s) == s
    ensures CleanStreamed(s) == s
  {
    FenceNeedsTick(s);
    CleanForFileFixedIff(s);
    CleanStreamedFixedIff(s);
  }

  /** What `stream_ollama` yields passes through `write_output`'s cleaning
      unchanged: the second stripping is a no-op on unedited output. */
  lemma StreamedThenFileUnchanged(output: string)
    ensures CleanForFile(CleanStreamed(output)) == CleanStreamed(output)
  {
    CleanStreamedNoFence(output);
    CleanForFileFixedIff(CleanStreamed(output));
  }

  /** The first pass alone can create a fence by joining the backticks
      around a removed marker; the second pass then removes it. */
  lemma FirstPassJoinsRuns()
    ensures ReplaceAll("``" + CppFence + "`", CppFence, "") == Fence
    ensures CleanForFile("``" + CppFence + "`") == ""
  {
    var s := "``" + CppFence + "`";
    var tail := CppFence + "`";
    assert s[1..][1..] == s[2..] == tail;
    assert tail[|CppFence|..] == "`";
    assert ReplaceAll("`", CppFence, "") == "`";
    assert ReplaceAll(tail, CppFence, "") == "`";
    assert s[1..][3] != CppFence[3];
    assert ReplaceAll(s[1..], CppFence, "") == "``";
    assert s[3] != CppFence[3];
    assert ReplaceAll(s, CppFence, "") == Fence;
    assert ReplaceAll(Fence, Fence, "") == "";
  }

  /** An opening marker not followed by a newline loses only its backticks
      in `stream_ollama`, leaving the language tag in the code. */
  lemma StreamedKeepsBareTag()
    ensures CleanStreamed(CppFence) == "cpp"
    ensures CleanForFile(CppFence) == ""
  {
    assert !(CppFenceLine <= CppFence);
    assert ReplaceAll(CppFence, CppFenceLine, "") == CppFence by {
      NoTickUnchanged("cpp");
    }
  }
}
