/** The few JavaScript built-ins the rotation pipeline leans on: nullable
    values, the `"" + null` rendering, `String.prototype.lastIndexOf` on a
    one-character needle and `String.prototype.substring` with its clamping
    and swapping. Positions here count Unicode characters, while JavaScript
    counts UTF-16 code units; the two agree on any string without characters
    outside the Basic Multilingual Plane. */
module Js {

  /** A value that may be `null`, as React state initialised with `null`. */
  datatype Nullable<+T> = Null | Value(value: T)

  /** How `x + "..."` renders a nullable string: `null` becomes the text "null". */
  function Render(x: Nullable<string>): (r: string)
    ensures x.Value? ==> r == x.value
    ensures x.Null? ==> r == "null"
  {
    match x
    case Null => "null"
    case Value(s) => s
  }

  /** `s.lastIndexOf(c)`: the position of the last occurrence of `c`, or -1. */
  function LastIndexOf(s: string, c: char): (r: int)
    ensures -1 <= r < |s|
    ensures r == -1 <==> c !in s
    ensures 0 <= r ==> s[r] == c && c !in s[r + 1..]
    decreases |s|
  {
    if |s| == 0 then -1
    else if s[|s| - 1] == c then
      |s| - 1
    else
      var init := s[..|s| - 1];
      assert s == init + [s[|s| - 1]];
      var k := LastIndexOf(init, c);
      assert 0 <= k ==> s[k + 1..] == init[k + 1..] + [s[|s| - 1]];
      k
  }

  /** The index `substring` uses for an argument: clamped into `[0, len]`. */
  function Clamp(x: int, len: nat): (r: nat)
    ensures r <= len
    ensures 0 <= x <= len ==> r == x
  {
    if x < 0 then 0 else if x > len then len else x
  }

  /** `s.substring(start, end)`: both arguments clamped into the string,
      then swapped when the first exceeds the second. */
  function Substring(s: string, start: int, end: int): (r: string)
    ensures |r| <= |s|
    ensures 0 <= start <= end <= |s| ==> r == s[start..end]
    ensures end <= 0 && start <= 0 ==> r == ""
    ensures end >= |s| && start >= |s| ==> r == ""
    ensures 0 <= start <= |s| <= end ==> r == s[start..]
    ensures 0 <= end <= |s| <= start ==> r == s[end..]
  {
    var a := Clamp(start, |s|);
    var b := Clamp(end, |s|);
    if a <= b then s[a..b] else s[b..a]
  }

  /** `substring` does not care in which order its bounds are given. */
  lemma SubstringSymmetric(s: string, start: int, end: int)
    ensures Substring(s, start, end) == Substring(s, end, start)
  {
  }
}
