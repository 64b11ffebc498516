/** Python's `str.replace(old, new)` and `sub in s` for a non-empty
    `old`/`sub`, over strings as sequences of characters. */
module PyStrings {

  /** `pat` occurs in `s` starting at index `i`. */
  predicate Occurs(s: string, pat: string, i: int) {
    0 <= i <= |s| && pat <= s[i..]
  }

  /** Python's `s.endswith(suffix)`; `s.startswith(prefix)` is `prefix <= s`. */
  predicate EndsWith(s: string, suffix: string) {
    |suffix| <= |s| && s[|s| - |suffix|..] == suffix
  }

  /** Python's `pat in s`. */
  predicate Contains(s: string, pat: string) {
    exists i :: 0 <= i <= |s| && Occurs(s, pat, i)
  }

  /** Python's `s.replace(pat, rep)`: scanning left to right, every leftmost
      non-overlapping occurrence of `pat` is replaced by `rep`, and the scan
      resumes right after the replaced occurrence. */
  function ReplaceAll(s: string, pat: string, rep: string): string
    requires |pat| > 0
    decreases |s|
  {
    if pat <= s then rep + ReplaceAll(s[|pat|..], pat, rep)
    else if s == [] then []
    else [s[0]] + ReplaceAll(s[1..], pat, rep)
  }

  /** An occurrence in the tail of `[c] + t` is an occurrence in `[c] + t`,
      and every occurrence in `[c] + t` is at index 0 or comes from `t`. */
  lemma ContainsCons(c: char, t: string, pat: string)
    ensures Contains([c] + t, pat) <==> Occurs([c] + t, pat, 0) || Contains(t, pat)
  {
    var s := [c] + t;
    if Contains(s, pat) && !Occurs(s, pat, 0) {
      var i :| 0 <= i <= |s| && Occurs(s, pat, i);
      assert s[i..] == t[i - 1..];
      assert Occurs(t, pat, i - 1);
    }
    if Contains(t, pat) {
      var i :| 0 <= i <= |t| && Occurs(t, pat, i);
      assert s[i + 1..] == t[i..];
      assert Occurs(s, pat, i + 1);
    }
  }

  /** A replacement shorter than the pattern never lengthens the text, and
      shortens it whenever the pattern occurs. */
  lemma {:induction false} ReplaceAllShortens(s: string, pat: string, rep: string)
    requires |rep| < |pat|
    ensures |ReplaceAll(s, pat, rep)| <= |s|
    ensures Contains(s, pat) ==> |ReplaceAll(s, pat, rep)| < |s|
    decreases |s|
  {
    if pat <= s {
      ReplaceAllShortens(s[|pat|..], pat, rep);
    } else if s != [] {
      ReplaceAllShortens(s[1..], pat, rep);
      assert s == [s[0]] + s[1..];
      ContainsCons(s[0], s[1..], pat);
    }
  }

  /** A string in which `pat` does not occur comes back unchanged. */
  lemma {:induction false} ReplaceAllAbsent(s: string, pat: string, rep: string)
    requires |pat| > 0
    requires !Contains(s, pat)
    ensures ReplaceAll(s, pat, rep) == s
    decreases |s|
  {
    assert !Occurs(s, pat, 0);
    if s != [] {
      assert s == [s[0]] + s[1..];
      ContainsCons(s[0], s[1..], pat);
      ReplaceAllAbsent(s[1..], pat, rep);
    }
  }

  /** With a strictly shorter replacement, `replace` changes nothing exactly
      when the pattern does not occur. */
  lemma ReplaceAllFixedIff(s: string, pat: string, rep: string)
    requires |rep| < |pat|
    ensures ReplaceAll(s, pat, rep) == s <==> !Contains(s, pat)
  {
    if Contains(s, pat) {
      ReplaceAllShortens(s, pat, rep);
    } else {
      ReplaceAllAbsent(s, pat, rep);
    }
  }

  /** Wherever a string `q` occurs, each prefix `p` of `q` occurs too. */
  lemma ContainsPrefixOf(s: string, p: string, q: string)
    requires p <= q
    ensures Contains(s, q) ==> Contains(s, p)
  {
    if Contains(s, q) {
      var i :| 0 <= i <= |s| && Occurs(s, q, i);
      assert Occurs(s, p, i);
    }
  }
}
