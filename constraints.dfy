/** The Bean Validation constraints the entities use (@NotBlank, @Size),
    over nullable strings. Java's String.trim() strips every leading and
    trailing character whose code is at most U+0020. */
module Constraints {
  import opened Wrappers

  predicate IsWhitespace(c: char) {
    c <= ' '
  }

  /** The string with its leading trim-able characters removed. */
  function TrimStart(s: string): (r: string)
    ensures |r| <= |s| && r == s[|s| - |r|..]
    ensures |r| > 0 ==> !IsWhitespace(r[0])
    ensures forall i :: 0 <= i < |s| - |r| ==> IsWhitespace(s[i])
  {
    if |s| > 0 && IsWhitespace(s[0]) then TrimStart(s[1..]) else s
  }

  /** The string with its trailing trim-able characters removed. */
  function TrimEnd(s: string): (r: string)
    ensures |r| <= |s| && r == s[..|r|]
    ensures |r| > 0 ==> !IsWhitespace(r[|r| - 1])
    ensures forall i :: |r| <= i < |s| ==> IsWhitespace(s[i])
  {
    if |s| > 0 && IsWhitespace(s[|s| - 1]) then TrimEnd(s[..|s| - 1]) else s
  }

  /** String.trim(). */
  function Trim(s: string): string {
    TrimEnd(TrimStart(s))
  }

  /** Trimming leaves nothing exactly when every character is trim-able. */
  lemma TrimEmpty(s: string)
    ensures Trim(s) == [] <==> forall i :: 0 <= i < |s| ==> IsWhitespace(s[i])
  {
    var a := TrimStart(s);
    if |a| > 0 {
      assert !IsWhitespace(a[0]) && a[0] == s[|s| - |a|];
    }
  }

  /** @NotBlank: present, and not empty once trimmed. */
  predicate NotBlank(s: Option<string>) {
    s.Some? && |Trim(s.value)| > 0
  }

  /** A present string is not blank exactly when one of its characters is
      above U+0020. */
  lemma NotBlankIff(s: string)
    ensures NotBlank(Some(s)) <==> exists i :: 0 <= i < |s| && !IsWhitespace(s[i])
  {
    TrimEmpty(s);
  }

  /** @Size(min, max): null is valid, otherwise the length is in range. */
  predicate SizeWithin(s: Option<string>, min: nat, max: nat) {
    s.None? || min <= |s.value| <= max
  }

  /** @Size(min) with no upper bound. */
  predicate SizeAtLeast(s: Option<string>, min: nat) {
    s.None? || min <= |s.value|
  }

  /** Java string concatenation of a possibly null reference writes "null". */
  function JavaString(s: Option<string>): (r: string)
    ensures s.Some? ==> r == s.value
    ensures s.None? ==> r == "null"
  {
    if s.Some? then s.value else "null"
  }
}
