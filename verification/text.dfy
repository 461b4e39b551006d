/** The two string operations the column rules rely on: Python's
    `str.endswith` and `str.lower`. */
module Text {

  /** `s.endswith(suffix)`. */
  predicate EndsWith(s: string, suffix: string)
  {
    |suffix| <= |s| && s[|s| - |suffix|..] == suffix
  }

  /** Lower-case form of one character; only the ASCII letters are folded. */
  function LowerChar(c: char): char
  {
    if 'A' <= c <= 'Z' then (c as int - 'A' as int + 'a' as int) as char else c
  }

  /** `s.lower()`, character by character. */
  function Lower(s: string): string
  {
    seq(|s|, i requires 0 <= i < |s| => LowerChar(s[i]))
  }

  /** A character lower-cases to an ASCII letter exactly when it is that
      letter in either case. */
  lemma LowerCharIs(c: char, lower: char)
    requires 'a' <= lower <= 'z'
    ensures LowerChar(c) == lower <==> c == lower || c as int == lower as int - 32
  {
  }

  /** `s.endswith(t)` looks only at the last `|t|` characters of `s`. */
  lemma EndsWithLastChars(s: string, suffix: string)
    requires |suffix| == 2
    ensures EndsWith(s, suffix) <==> |s| >= 2 && s[|s| - 2] == suffix[0] && s[|s| - 1] == suffix[1]
  {
    if |s| >= 2 && s[|s| - 2] == suffix[0] && s[|s| - 1] == suffix[1] {
      assert s[|s| - 2..] == suffix;
    }
  }
}
