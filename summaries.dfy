/**
 * Truncation of a generated summary to the requested `max_length`
 * (`summarize_text`): the summary is cut to its first `max_length`
 * characters, then back to the last space in them, and `...` is appended.
 */
module Summaries {
  import opened Wrappers

  const Ellipsis: string := "..."

  /**
   * How many characters Python's `s[:m]` keeps of a string of length `len`:
   * the first `m` (at most all) when `m` is non-negative, all but the last
   * `-m` (at least none) when it is negative.
   */
  function HeadLength(len: nat, m: int): nat {
    if m >= 0 then (if m <= len then m else len)
    else if 0 <= len + m then len + m
    else 0
  }

  /** Python's `s[:m]`: a negative `m` counts from the end of `s`. */
  function PrefixSlice(s: string, m: int): (r: string)
    ensures |r| <= |s| && r == s[..|r|]
    ensures |r| == HeadLength(|s|, m)
  {
    if 0 <= m then (if m <= |s| then s[..m] else s)
    else if 0 <= |s| + m then s[..|s| + m]
    else []
  }

  /** Python's right split at the last space, left part: everything before the last space, or all of `s` when it has none. */
  function BeforeLastSpace(s: string): (r: string)
    ensures |r| <= |s| && r == s[..|r|]
    ensures ' ' !in s ==> r == s
    ensures ' ' in s ==> |r| < |s| && s[|r|] == ' ' && ' ' !in s[|r| + 1..]
  {
    if ' ' !in s then s
    else if s[|s| - 1] == ' ' then s[..|s| - 1]
    else
      var r := BeforeLastSpace(s[..|s| - 1]);
      assert s == s[..|s| - 1] + [s[|s| - 1]];
      r
  }

  /**
   * The condition under which the summary is cut: `max_length` set,
   * non-zero and exceeded. An unset or zero `max_length` never cuts, a
   * positive one cuts exactly a longer summary, and a negative one cuts every
   * summary, the empty one included.
   */
  predicate MustTruncate(summary: string, maxLength: Option<int>)
    ensures maxLength == None || maxLength == Some(0) ==> !MustTruncate(summary, maxLength)
    ensures maxLength.Some? && maxLength.value > 0 ==> (MustTruncate(summary, maxLength) <==> |summary| > maxLength.value)
    ensures maxLength.Some? && maxLength.value < 0 ==> MustTruncate(summary, maxLength)
  {
    maxLength.Some? && maxLength.value != 0 && |summary| > maxLength.value
  }

  /**
   * The summary as returned: unchanged unless it must be cut; otherwise the
   * part of its head (the characters `summary[:max_length]` keeps) before
   * the last space in that head, or the whole head when it has none,
   * followed by `...`. For a positive `max_length` the result is therefore
   * at most three characters longer than `max_length`.
   */
  function TruncateSummary(summary: string, maxLength: Option<int>): (r: string)
    ensures !MustTruncate(summary, maxLength) ==> r == summary
    ensures MustTruncate(summary, maxLength) ==>
      && |Ellipsis| <= |r| <= |summary| + |Ellipsis|
      && r[|r| - |Ellipsis|..] == Ellipsis
      && r[..|r| - |Ellipsis|] == summary[..|r| - |Ellipsis|]
    ensures MustTruncate(summary, maxLength) ==>
      var h := HeadLength(|summary|, maxLength.value);
      var kept := |r| - |Ellipsis|;
      && kept <= h
      && (' ' in summary[..h] ==> kept < h && summary[kept] == ' ' && ' ' !in summary[kept + 1..h])
      && (' ' !in summary[..h] ==> kept == h)
    ensures MustTruncate(summary, maxLength) && maxLength.value > 0 ==> |r| <= maxLength.value + |Ellipsis|
  {
    if MustTruncate(summary, maxLength) then
      var h := HeadLength(|summary|, maxLength.value);
      var head := PrefixSlice(summary, maxLength.value);
      var kept := BeforeLastSpace(head);
      assert head == summary[..h];
      assert kept == summary[..|kept|];
      assert ' ' in head ==> head[|kept| + 1..] == summary[|kept| + 1..h];
      kept + Ellipsis
    else summary
  }

  /**
   * A negative `max_length` passes the truthiness test and slices from the
   * end, so the bound `max_length + 3` does not hold for it.
   */
  lemma NegativeMaxLengthSlicesFromTheEnd()
    ensures TruncateSummary("abc def", Some(-1)) == "abc..."
    ensures |TruncateSummary("abc def", Some(-1))| > -1 + |Ellipsis|
  {
    assert PrefixSlice("abc def", -1) == "abc de";
    assert BeforeLastSpace("abc de") == BeforeLastSpace("abc d");
    assert BeforeLastSpace("abc d") == BeforeLastSpace("abc ");
    assert BeforeLastSpace("abc ") == "abc";
  }
}
