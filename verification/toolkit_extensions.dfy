/** Maximis.Toolkit/ExtensionMethods.cs: batching a sequence into groups of
    at most `max` items, the four character cutters and truncation with an
    ellipsis. The string-to-value conversions of that file (ToInt, ToDecimal,
    ToDateTime, ToGuid, ToDouble, ToBoolean) rely on .NET parsing and are not
    part of this model. */
module ToolkitExtensions {
  import opened Wrappers
  import opened Text

  /** The concatenation of all batches, in order. */
  function Flatten<T>(batches: seq<seq<T>>): seq<T> {
    if batches == [] then [] else batches[0] + Flatten(batches[1..])
  }

  lemma {:induction false} FlattenAppend<T>(batches: seq<seq<T>>, last: seq<T>)
    ensures Flatten(batches + [last]) == Flatten(batches) + last
  {
    if batches == [] {
      assert [last][1..] == [];
    } else {
      assert (batches + [last])[0] == batches[0];
      assert (batches + [last])[1..] == batches[1..] + [last];
      FlattenAppend(batches[1..], last);
    }
  }

  /** InSetsOf: the iterator fills a list of capacity `max`, yields it when
      it holds `max` items, and yields what is left at the end. A negative
      capacity makes the list constructor throw on the first step; a zero
      capacity is never reached, so everything lands in one batch. */
  method InSetsOf<T>(source: seq<T>, max: int) returns (r: Result<seq<seq<T>>>)
    ensures r.Failure? <==> max < 0
    ensures r.Success? ==> Flatten(r.value) == source
    ensures r.Success? ==> forall i :: 0 <= i < |r.value| ==> r.value[i] != []
    ensures r.Success? && max > 0 ==> forall i :: 0 <= i < |r.value| ==> |r.value[i]| <= max
    ensures r.Success? && max > 0 ==> forall i :: 0 <= i < |r.value| - 1 ==> |r.value[i]| == max
    ensures r.Success? && max == 0 ==> r.value == (if source == [] then [] else [source])
  {
    if max < 0 {
      return Failure("ArgumentOutOfRangeException: capacity");
    }
    var batches: seq<seq<T>> := [];
    var current: seq<T> := [];
    var i := 0;
    while i < |source|
      invariant 0 <= i <= |source|
      invariant Flatten(batches) + current == source[..i]
      invariant max > 0 ==> |current| < max
      invariant max > 0 ==> forall j :: 0 <= j < |batches| ==> |batches[j]| == max
      invariant max == 0 ==> batches == []
    {
      current := current + [source[i]];
      if |current| == max {
        FlattenAppend(batches, current);
        batches := batches + [current];
        current := [];
      }
      assert source[..i + 1] == source[..i] + [source[i]];
      i := i + 1;
    }
    assert source[..i] == source;
    if |current| > 0 {
      FlattenAppend(batches, current);
      batches := batches + [current];
    }
    if max == 0 && source != [] {
      assert Flatten([current]) == current;
    }
    return Success(batches);
  }

  /** LeftOfFirst: the text before the first `c`, or `s` when there is none. */
  function LeftOfFirst(s: string, c: char): (r: string)
    ensures c !in s ==> r == s
    ensures c in s ==> c !in r && r + [c] <= s
  {
    var index := IndexOf(s, c);
    if index >= 0 then s[..index] else s
  }

  /** LeftOfLast: the text before the last `c`, or `s` when there is none. */
  function LeftOfLast(s: string, c: char): (r: string)
    ensures c !in s ==> r == s
    ensures c in s ==> r + [c] <= s && c !in s[|r| + 1..]
  {
    var index := LastIndexOf(s, c);
    if index >= 0 then s[..index] else s
  }

  /** RightOfFirst: the text after the first `c`, or `s` when there is none. */
  function RightOfFirst(s: string, c: char): (r: string)
    ensures c !in s ==> r == s
    ensures c in s ==> s == LeftOfFirst(s, c) + [c] + r
  {
    var index := IndexOf(s, c);
    if index >= 0 then
      assert s == s[..index] + [c] + s[index + 1..];
      s[index + 1..]
    else s
  }

  /** RightOfLast: the text after the last `c`, or `s` when there is none. */
  function RightOfLast(s: string, c: char): (r: string)
    ensures c !in s ==> r == s
    ensures c in s ==> c !in r && s == LeftOfLast(s, c) + [c] + r
  {
    var index := LastIndexOf(s, c);
    if index >= 0 then
      assert s == s[..index] + [c] + s[index + 1..];
      s[index + 1..]
    else s
  }

  /** The text after the last `c` is the part that `LeftOfLast` and the
      separator leave over, and it contains no `c`. */
  lemma LastSplit(s: string, c: char)
    requires c in s
    ensures |LeftOfLast(s, c)| < |s|
    ensures RightOfLast(s, c) == s[|LeftOfLast(s, c)| + 1..]
    ensures c !in RightOfLast(s, c)
  {
    var l, r := LeftOfLast(s, c), RightOfLast(s, c);
    assert s == l + [c] + r;
    assert s[|l| + 1..] == r;
  }

  /** TruncateWithEllipsis, as written: a string whose length exceeds
      `maxLength - 3` is cut to `maxLength - 3` characters followed by "...".
      With 0 < maxLength < 3 the source asks Substring for a negative length,
      which throws; callers must not do that. */
  function TruncateWithEllipsis(s: string, maxLength: int): (r: string)
    requires maxLength <= 0 || maxLength >= 3
    ensures maxLength <= 0 || |s| <= maxLength - 3 ==> r == s
    ensures maxLength >= 3 && |s| > maxLength - 3 ==> r == s[..maxLength - 3] + "..."
    ensures maxLength > 0 ==> |r| <= maxLength
  {
    if maxLength > 0 && |s| > maxLength - 3 then s[..maxLength - 3] + "..." else s
  }

  /** A string that already fits in `maxLength` is still cut: "abcd" with a
      limit of 4 becomes "a...". */
  lemma TruncateAlteredFittingString()
    ensures |"abcd"| <= 4 && TruncateWithEllipsis("abcd", 4) == "a..." != "abcd"
  {
  }

  /** The evidently intended truncation: a string that fits in `maxLength` is
      returned unchanged, a longer one is cut to exactly `maxLength`
      characters ending in "...". */
  function TruncateToFit(s: string, maxLength: int): (r: string)
    requires maxLength <= 0 || maxLength >= 3
    ensures maxLength <= 0 || |s| <= maxLength ==> r == s
    ensures maxLength >= 3 && |s| > maxLength ==> |r| == maxLength && r[..maxLength - 3] == s[..maxLength - 3] && r[maxLength - 3..] == "..."
    ensures maxLength > 0 ==> |r| <= maxLength
  {
    if maxLength > 0 && |s| > maxLength then s[..maxLength - 3] + "..." else s
  }
}
