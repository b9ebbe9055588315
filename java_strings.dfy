/**
 * The part of `java.lang.String` the validator relies on: `trim()` removes
 * every leading and trailing character whose code point is at most U+0020,
 * and a value is blank when it is null or trims to the empty string.
 */
module JavaStrings {
  import opened Wrappers

  /** A character that `String.trim()` strips. */
  predicate IsTrimmable(c: char) {
    c <= ' '
  }

  /** Every character of `s` is one that `trim()` strips. */
  predicate OnlyTrimmable(s: string) {
    forall i :: 0 <= i < |s| ==> IsTrimmable(s[i])
  }

  /** Drops the leading trimmable characters: the result is a suffix of `s`. */
  function TrimStart(s: string): (r: string)
    ensures |r| <= |s| && r == s[|s| - |r|..]
    ensures OnlyTrimmable(s[..|s| - |r|])
    ensures r == [] || !IsTrimmable(r[0])
  {
    if |s| > 0 && IsTrimmable(s[0]) then
      var r := TrimStart(s[1..]);
      var k := |s| - |r|;
      assert s[1..][k - 1..] == s[k..];
      assert forall i :: 1 <= i < k ==> s[..k][i] == s[1..][..k - 1][i - 1];
      r
    else
      s
  }

  /** Drops the trailing trimmable characters: the result is a prefix of `s`. */
  function TrimEnd(s: string): (r: string)
    ensures |r| <= |s| && r == s[..|r|]
    ensures OnlyTrimmable(s[|r|..])
    ensures r == [] || !IsTrimmable(r[|r| - 1])
  {
    if |s| > 0 && IsTrimmable(s[|s| - 1]) then
      var r := TrimEnd(s[..|s| - 1]);
      assert s[..|s| - 1][|r|..] == s[|r|..|s| - 1];
      assert s[|r|..] == s[|r|..|s| - 1] + [s[|s| - 1]];
      r
    else
      s
  }

  /** `String.trim()`. */
  function Trim(s: string): string {
    TrimEnd(TrimStart(s))
  }

  /** `s == null || s.trim().isEmpty()`, the test each validator rule applies. */
  predicate IsBlank(s: Option<string>) {
    s.None? || Trim(s.value) == []
  }

  /** A string trims to nothing exactly when it holds only trimmable characters. */
  lemma TrimIsEmptyIff(s: string)
    ensures Trim(s) == [] <==> OnlyTrimmable(s)
  {
    var t := TrimStart(s);
    var k := |s| - |t|;
    if Trim(s) == [] {
      // the suffix left by TrimStart is all trimmable, so it must be empty
      assert OnlyTrimmable(t[0..]);
      assert t == [];
      assert s[..k] == s;
    }
  }

  /** Blank means null or made only of characters at or below U+0020. */
  lemma BlankIff(s: Option<string>)
    ensures IsBlank(s) <==> s.None? || OnlyTrimmable(s.value)
  {
    if s.Some? {
      TrimIsEmptyIff(s.value);
    }
  }
}
