/**
 * The two Python string builtins the converter relies on, with Python's own semantics:
 * the tail slice `s[-n:]` and the character-set strip `s.strip(chars)`.
 */
module PyStr {

  /** Python's `s[-n:]` for a positive n: the last n characters, or all of s when it is shorter. */
  function LastChars(s: string, n: nat): string
  {
    if |s| < n then s else s[|s| - n..]
  }

  /**
   * Python's `s.strip(chars)`. The argument is a SET of characters, not a suffix: every
   * leading and then every trailing character that occurs in chars is removed.
   */
  function Strip(s: string, chars: string): string
  {
    if s != [] && s[0] in chars then Strip(s[1..], chars)
    else if s != [] && s[|s| - 1] in chars then Strip(s[..|s| - 1], chars)
    else s
  }

  /**
   * The strip of s is exactly the window s[i..j] whose outside consists of characters of the
   * set and whose first and last characters are not in it.
   */
  lemma {:induction false} StripWindow(s: string, chars: string, i: nat, j: nat)
    requires i <= j <= |s|
    requires forall k :: 0 <= k < i ==> s[k] in chars
    requires forall k :: j <= k < |s| ==> s[k] in chars
    requires i < |s| ==> s[i] !in chars
    requires i < j ==> s[j - 1] !in chars
    ensures Strip(s, chars) == s[i..j]
    decreases |s|
  {
    if i > 0 {
      var t := s[1..];
      forall k | 0 <= k < i - 1 ensures t[k] in chars { assert t[k] == s[k + 1]; }
      forall k | j - 1 <= k < |t| ensures t[k] in chars { assert t[k] == s[k + 1]; }
      StripWindow(t, chars, i - 1, j - 1);
      assert t[i - 1..j - 1] == s[i..j];
    } else if j < |s| {
      var t := s[..|s| - 1];
      forall k | j <= k < |t| ensures t[k] in chars { assert t[k] == s[k]; }
      StripWindow(t, chars, i, j);
      assert t[i..j] == s[i..j];
    } else {
      assert s[i..j] == s;
    }
  }

  /** The tail slice only looks at the end: a long enough suffix decides it. */
  lemma LastCharsAppend(stem: string, suffix: string, n: nat)
    requires n <= |suffix|
    ensures LastChars(stem + suffix, n) == LastChars(suffix, n)
  {
    var s := stem + suffix;
    assert s[|s| - n..] == suffix[|suffix| - n..];
  }

  /**
   * Stripping a string's own characters off stem + chars gives back the stem, when the stem
   * neither starts nor ends with one of them.
   */
  lemma StripOwnSuffix(stem: string, chars: string)
    requires stem != [] ==> stem[0] !in chars && stem[|stem| - 1] !in chars
    ensures Strip(stem + chars, chars) == stem
  {
    var s := stem + chars;
    forall k | |stem| <= k < |s| ensures s[k] in chars {
      assert s[k] == chars[k - |stem|];
    }
    if stem == [] {
      StripWindow(s, chars, |s|, |s|);
    } else {
      StripWindow(s, chars, 0, |stem|);
      assert s[0..|stem|] == stem;
    }
  }

  /**
   * The strip is no longer than s, starts and ends outside the set, and is empty exactly when
   * every character of s is in the set.
   */
  lemma {:induction false} StripShape(s: string, chars: string)
    ensures var r := Strip(s, chars);
      && |r| <= |s|
      && (r == [] || (r[0] !in chars && r[|r| - 1] !in chars))
      && (r == [] <==> forall k :: 0 <= k < |s| ==> s[k] in chars)
    decreases |s|
  {
    if s != [] && s[0] in chars {
      var t := s[1..];
      StripShape(t, chars);
      assert (forall k :: 0 <= k < |t| ==> t[k] in chars) <==> (forall k :: 0 <= k < |s| ==> s[k] in chars) by {
        if forall k :: 0 <= k < |t| ==> t[k] in chars {
          forall k | 0 <= k < |s| ensures s[k] in chars { if k > 0 { assert s[k] == t[k - 1]; } }
        }
        if forall k :: 0 <= k < |s| ==> s[k] in chars {
          forall k | 0 <= k < |t| ensures t[k] in chars { assert t[k] == s[k + 1]; }
        }
      }
    } else if s != [] && s[|s| - 1] in chars {
      var t := s[..|s| - 1];
      StripShape(t, chars);
      if |t| > 0 {
        assert t[0] == s[0];
      }
    }
  }

  /** Stripping twice with the same set changes nothing more. */
  lemma StripIdempotent(s: string, chars: string)
    ensures Strip(Strip(s, chars), chars) == Strip(s, chars)
  {
    var r := Strip(s, chars);
    StripShape(s, chars);
    StripWindow(r, chars, 0, |r|);
  }
}
