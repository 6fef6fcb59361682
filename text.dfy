/**
 * Whitespace trimming as done by the string `strip()` method with no
 * arguments: leading and trailing characters that the language counts as
 * whitespace are removed, inner characters are kept. Like the library, the
 * model scans forward from the start for the first non-whitespace character
 * and backward from the end for the last one, and keeps what lies between.
 */
module Text {

  /** The characters `strip()` removes. */
  predicate IsSpace(c: char) {
    || c == ' ' || c == '\t' || c == '\n' || c == '\r'
    || c == '\U{000B}' || c == '\U{000C}'
    || ('\U{001C}' <= c <= '\U{001F}')
    || c == '\U{0085}' || c == '\U{00A0}' || c == '\U{1680}'
    || ('\U{2000}' <= c <= '\U{200A}')
    || c == '\U{2028}' || c == '\U{2029}' || c == '\U{202F}' || c == '\U{205F}' || c == '\U{3000}'
  }

  predicate AllSpace(s: string) {
    forall i :: 0 <= i < |s| ==> IsSpace(s[i])
  }

  /** `s` neither starts nor ends with whitespace. */
  predicate IsTrimmed(s: string) {
    s != [] ==> !IsSpace(s[0]) && !IsSpace(s[|s| - 1])
  }

  /** The forward scan: the first position at or after `i` that does not hold whitespace, or `|s|`. */
  function SkipForward(s: string, i: nat): (f: nat)
    requires i <= |s|
    ensures i <= f <= |s|
    ensures forall k :: i <= k < f ==> IsSpace(s[k])
    ensures f < |s| ==> !IsSpace(s[f])
    decreases |s| - i
  {
    if i < |s| && IsSpace(s[i]) then SkipForward(s, i + 1) else i
  }

  /** The backward scan: the end of `s[lo..j]` once its trailing whitespace is dropped. */
  function SkipBackward(s: string, lo: nat, j: nat): (e: nat)
    requires lo <= j <= |s|
    ensures lo <= e <= j
    ensures forall k :: e <= k < j ==> IsSpace(s[k])
    ensures e > lo ==> !IsSpace(s[e - 1])
  {
    if j > lo && IsSpace(s[j - 1]) then SkipBackward(s, lo, j - 1) else j
  }

  /**
   * Where the stripped text starts in `s`. The fact that only whitespace
   * precedes it is stated both on the slice, as callers read it, and per
   * index, which is the form the solver instantiates.
   */
  function StripStart(s: string): (i: nat)
    ensures i <= |s| && AllSpace(s[..i])
    ensures forall k :: 0 <= k < i ==> IsSpace(s[k])
    ensures i < |s| ==> !IsSpace(s[i])
  {
    var i := SkipForward(s, 0);
    assert forall k :: 0 <= k < i ==> s[..i][k] == s[k];
    i
  }

  /** Where the stripped text ends in `s`; its whitespace fact is stated in both forms, as for StripStart. */
  function StripEnd(s: string): (j: nat)
    ensures StripStart(s) <= j <= |s| && AllSpace(s[j..])
    ensures forall k :: j <= k < |s| ==> IsSpace(s[k])
    ensures j > StripStart(s) ==> !IsSpace(s[j - 1])
  {
    var j := SkipBackward(s, StripStart(s), |s|);
    assert forall k :: 0 <= k < |s| - j ==> s[j..][k] == s[j + k];
    j
  }

  /**
   * `s` without its leading and trailing whitespace: the slice of `s` that
   * has only whitespace before and after it and neither starts nor ends
   * with whitespace; empty exactly when `s` is all whitespace.
   */
  function Strip(s: string): (r: string)
    ensures |r| <= |s|
    ensures var i := StripStart(s);
            && i + |r| <= |s| && r == s[i..i + |r|]
            && AllSpace(s[..i]) && AllSpace(s[i + |r|..])
    ensures r == [] <==> AllSpace(s)
    ensures IsTrimmed(r)
  {
    NothingLeftIffAllSpace(s);
    s[StripStart(s)..StripEnd(s)]
  }

  /** The two scans meet exactly when `s` is all whitespace. */
  lemma NothingLeftIffAllSpace(s: string)
    ensures StripStart(s) == StripEnd(s) <==> AllSpace(s)
  {
    var i, j := StripStart(s), StripEnd(s);
    if i == j {
      forall k | 0 <= k < |s| ensures IsSpace(s[k]) {
      }
    }
  }

  lemma SpaceBefore(s: string, n: nat)
    requires n <= |s| && AllSpace(s[..n])
    ensures forall k :: 0 <= k < n ==> IsSpace(s[k])
  {
    forall k | 0 <= k < n ensures IsSpace(s[k]) {
      assert s[..n][k] == s[k];
    }
  }

  lemma SpaceAfter(s: string, n: nat)
    requires n <= |s| && AllSpace(s[n..])
    ensures forall k :: n <= k < |s| ==> IsSpace(s[k])
  {
    forall k | n <= k < |s| ensures IsSpace(s[k]) {
      assert s[n..][k - n] == s[k];
    }
  }

  /**
   * Strip is determined by what it promises: any non-empty slice of `s`
   * with only whitespace around it that neither starts nor ends with
   * whitespace is what Strip returns.
   */
  lemma StripUnique(s: string, i: nat, j: nat)
    requires i < j <= |s|
    requires AllSpace(s[..i]) && AllSpace(s[j..])
    requires !IsSpace(s[i]) && !IsSpace(s[j - 1])
    ensures Strip(s) == s[i..j]
  {
    SpaceBefore(s, i);
    SpaceAfter(s, j);
  }

  /** Text that neither starts nor ends with whitespace is left as it is. */
  lemma StripTrimmed(s: string)
    requires IsTrimmed(s)
    ensures Strip(s) == s
  {
    if s == [] {
      assert AllSpace(s);
    } else {
      assert s[..0] == [] && s[|s|..] == [] && s[0..|s|] == s;
      StripUnique(s, 0, |s|);
    }
  }

  /** Stripping twice is the same as stripping once. */
  lemma StripIdempotent(s: string)
    ensures Strip(Strip(s)) == Strip(s)
  {
    StripTrimmed(Strip(s));
  }

  /**
   * Strip removes exactly the surrounding whitespace: any text that neither
   * starts nor ends with whitespace comes back unchanged from inside any
   * whitespace padding.
   */
  lemma StripSurroundingSpace(before: string, core: string, after: string)
    requires AllSpace(before) && AllSpace(after)
    requires IsTrimmed(core)
    ensures Strip(before + core + after) == core
  {
    var s := before + core + after;
    var i, j := |before|, |before| + |core|;
    if core == [] {
      forall k | 0 <= k < |s| ensures IsSpace(s[k]) {
        if k < i {
          assert s[k] == before[k];
        } else {
          assert s[k] == after[k - i];
        }
      }
    } else {
      assert s[..i] == before && s[j..] == after && s[i..j] == core;
      assert s[i] == core[0] && s[j - 1] == core[|core| - 1];
      StripUnique(s, i, j);
    }
  }

  lemma StripExamples()
    ensures Strip("   ") == ""
    ensures Strip(" 8901063010805\n") == "8901063010805"
  {
    var code := "8901063010805";
    assert AllSpace("   ");
    assert !IsSpace(code[0]) && !IsSpace(code[|code| - 1]);
    assert " " + code + "\n" == " 8901063010805\n";
    StripSurroundingSpace(" ", code, "\n");
  }
}
