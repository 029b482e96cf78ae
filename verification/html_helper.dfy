/** Maximis.Toolkit/Html/HtmlHelper.cs: StripHtml turns an HTML fragment
    into plain text. Line breaks and closing paragraph tags become a marker
    character, every tag becomes a space, whitespace runs become one space,
    and each run of markers becomes a blank line (or a space when line
    breaks are not wanted). The three regular expressions it uses are
    written out below as functions that scan the text the way .NET's regex
    engine does: leftmost match first, matches never overlapping. */
module HtmlHelper {
  import opened Wrappers
  import opened Text

  /** The line-break marker, the NOT SIGN. */
  const Marker: char := '¬'

  // ------------------------------------------------------ The regular expressions

  /** `</p>` with RegexOptions.IgnoreCase occurs at the start of `s`. */
  predicate ParaCloseAtStart(s: string) {
    |s| >= 4 && s[0] == '<' && s[1] == '/' && (s[2] == 'p' || s[2] == 'P') && s[3] == '>'
  }

  /** paraClose.Replace(s, "¬"). */
  function ReplaceParaClose(s: string): (r: string)
    ensures forall d :: d in r ==> d in s || d == Marker
    decreases |s|
  {
    if s == [] then []
    else if ParaCloseAtStart(s) then [Marker] + ReplaceParaClose(s[4..])
    else [s[0]] + ReplaceParaClose(s[1..])
  }

  /** Where the lazy `.+?>` that follows a '<' ends, scanning from `j`: the
      first '>' at or after `j`, provided no line feed (which `.` does not
      match) comes before it. */
  function TagClose(s: string, j: nat): (r: Option<nat>)
    ensures r.Some? ==> j <= r.value < |s| && s[r.value] == '>'
    ensures r.Some? ==> forall k :: j <= k < r.value ==> s[k] != '>' && s[k] != '\n'
    decreases |s| - j
  {
    if j >= |s| then None
    else if s[j] == '>' then Some(j)
    else if s[j] == '\n' then None
    else TagClose(s, j + 1)
  }

  /** The length of the tag `<.+?>` at the start of `s`, if one starts
      there: a '<', at least one character that is not a line feed, and the
      nearest '>' after it on the same line. */
  function TagAtStart(s: string): (r: Option<nat>)
    ensures r.Some? ==> 3 <= r.value <= |s| && s[0] == '<' && s[r.value - 1] == '>'
  {
    if |s| >= 3 && s[0] == '<' && s[1] != '\n' then
      match TagClose(s, 2)
      case Some(j) => Some(j + 1)
      case None => None
    else None
  }

  /** htmlTags.Replace(s, " "). */
  function ReplaceTags(s: string): (r: string)
    ensures forall d :: d in r ==> d in s || d == ' '
    decreases |s|
  {
    if s == [] then []
    else
      match TagAtStart(s)
      case Some(n) => " " + ReplaceTags(s[n..])
      case None => [s[0]] + ReplaceTags(s[1..])
  }

  /** The markers at the start of `s` removed. */
  function DropMarkers(s: string): (r: string)
    ensures |r| <= |s| && r == s[|s| - |r|..]
    ensures r == [] || r[0] != Marker
    ensures forall k :: 0 <= k < |s| - |r| ==> s[k] == Marker
  {
    if s != [] && s[0] == Marker then DropMarkers(s[1..]) else s
  }

  /** newLineMarker.Replace(s, rep): each maximal run of markers becomes
      `rep`. */
  function ReplaceMarkerRuns(s: string, rep: string): (r: string)
    ensures Marker !in rep ==> Marker !in r
    ensures forall d :: d in r ==> d in rep || (d in s && d != Marker)
    decreases |s|
  {
    if s == [] then []
    else if s[0] == Marker then rep + ReplaceMarkerRuns(DropMarkers(s), rep)
    else [s[0]] + ReplaceMarkerRuns(s[1..], rep)
  }

  // ----------------------------------------------------------------- StripHtml

  /** What a blank line and a marker run turn into. */
  function MarkerReplacement(includeLineBreaks: bool): string {
    if includeLineBreaks then NewLine + NewLine else " "
  }

  /** The text StripHtml returns, step by step. */
  function Stripped(html: string, includeLineBreaks: bool): string {
    var markedBreaks := ReplaceAll(html, NewLine, [Marker]);
    var markedParagraphs := ReplaceParaClose(markedBreaks);
    var untagged := ReplaceTags(markedParagraphs);
    var collapsed := CollapseWhiteSpace(untagged);
    var noSpaceAfterMarker := ReplaceAll(collapsed, [Marker, ' '], [Marker]);
    Trim(ReplaceMarkerRuns(noSpaceAfterMarker, MarkerReplacement(includeLineBreaks)))
  }

  /** Every whitespace character is a plain space. */
  predicate SpacesOnly(s: string) {
    forall i :: 0 <= i < |s| && IsWhiteSpace(s[i]) ==> s[i] == ' '
  }

  /** StripHtml: reassigns the text through the fixed sequence of
      replacements, then trims it. */
  method StripHtml(html: string, includeLineBreaks: bool) returns (r: string)
    ensures r == Stripped(html, includeLineBreaks)
    ensures Marker !in r
    ensures r == [] || (!IsWhiteSpace(r[0]) && !IsWhiteSpace(r[|r| - 1]))
    ensures !includeLineBreaks ==> SpacesOnly(r)
  {
    r := ReplaceAll(html, NewLine, [Marker]);
    r := ReplaceParaClose(r);
    r := ReplaceTags(r);
    r := CollapseWhiteSpace(r);
    r := ReplaceAll(r, [Marker, ' '], [Marker]);
    if includeLineBreaks {
      r := ReplaceMarkerRuns(r, NewLine + NewLine);
    } else {
      r := ReplaceMarkerRuns(r, " ");
    }
    r := Trim(r);
    assert r == Stripped(html, includeLineBreaks);
    StrippedTrimmed(html, includeLineBreaks);
    StrippedHasNoMarker(html, includeLineBreaks);
    StrippedSingleLine(html);
  }

  // ---------------------------------------------------------------- Properties

  /** The text never starts or ends with whitespace. */
  lemma StrippedTrimmed(html: string, includeLineBreaks: bool)
    ensures var r := Stripped(html, includeLineBreaks);
      r == [] || (!IsWhiteSpace(r[0]) && !IsWhiteSpace(r[|r| - 1]))
  {
  }

  /** Trimming keeps a slice of the text, so only characters it had. */
  lemma TrimChars(s: string)
    ensures forall d :: d in Trim(s) ==> d in s
  {
    var r := Trim(s);
    var a := LeadingWhiteSpace(s);
    forall d | d in r ensures d in s {
      var i :| 0 <= i < |r| && r[i] == d;
      assert s[a + i] == d;
    }
  }

  /** No marker survives, in either mode: every run of markers, including
      markers the input already held, is replaced. */
  lemma StrippedHasNoMarker(html: string, includeLineBreaks: bool)
    ensures Marker !in Stripped(html, includeLineBreaks)
  {
    var markedBreaks := ReplaceAll(html, NewLine, [Marker]);
    var collapsed := CollapseWhiteSpace(ReplaceTags(ReplaceParaClose(markedBreaks)));
    var noSpaceAfterMarker := ReplaceAll(collapsed, [Marker, ' '], [Marker]);
    var replaced := ReplaceMarkerRuns(noSpaceAfterMarker, MarkerReplacement(includeLineBreaks));
    assert Marker !in MarkerReplacement(includeLineBreaks);
    TrimChars(replaced);
  }

  /** Without line breaks the text comes out on one line: the only
      whitespace left is the plain space. */
  lemma StrippedSingleLine(html: string)
    ensures SpacesOnly(Stripped(html, false))
  {
    var markedBreaks := ReplaceAll(html, NewLine, [Marker]);
    var collapsed := CollapseWhiteSpace(ReplaceTags(ReplaceParaClose(markedBreaks)));
    assert SpacesOnly(collapsed);
    var noSpaceAfterMarker := ReplaceAll(collapsed, [Marker, ' '], [Marker]);
    ReplaceAllChars(collapsed, [Marker, ' '], [Marker]);
    SpacesOnlyFrom(collapsed, [Marker], noSpaceAfterMarker);
    var replaced := ReplaceMarkerRuns(noSpaceAfterMarker, " ");
    SpacesOnlyFrom(noSpaceAfterMarker, " ", replaced);
    TrimChars(replaced);
    SpacesOnlyFrom(replaced, [], Trim(replaced));
  }

  /** Text made only of characters of `source` and `extra` has no
      whitespace but the plain space when neither has. */
  lemma SpacesOnlyFrom(source: string, extra: string, text: string)
    requires SpacesOnly(source) && SpacesOnly(extra)
    requires forall d :: d in text ==> d in source || d in extra
    ensures SpacesOnly(text)
  {
    forall i | 0 <= i < |text| && IsWhiteSpace(text[i]) ensures text[i] == ' ' {
      var d := text[i];
      if d in source {
        var k :| 0 <= k < |source| && source[k] == d;
      } else {
        var k :| 0 <= k < |extra| && extra[k] == d;
      }
    }
  }

  /** A tag is replaced by one space: '<', a non-empty body on one line
      holding no '>', and the closing '>'. */
  lemma TagBecomesSpace(body: string, rest: string)
    requires body != [] && '>' !in body && '\n' !in body
    ensures ReplaceTags("<" + body + ">" + rest) == " " + ReplaceTags(rest)
  {
    var s := "<" + body + ">" + rest;
    assert s[1] == body[0];
    TagCloseSkipsBody(s, body, 2);
    assert TagAtStart(s) == Some(|body| + 2);
    assert s[|body| + 2..] == rest;
  }

  lemma {:induction false} TagCloseSkipsBody(s: string, body: string, j: nat)
    requires |s| >= |body| + 2 && s == "<" + body + ">" + s[|body| + 2..]
    requires '>' !in body && '\n' !in body && 2 <= j <= |body| + 1
    ensures TagClose(s, j) == Some(|body| + 1)
    decreases |body| + 1 - j
  {
    if j < |body| + 1 {
      assert s[j] == body[j - 1];
      TagCloseSkipsBody(s, body, j + 1);
    }
  }

  /** A '<' that no '>' closes on its line is kept as it is. */
  lemma TextWithoutTagsUnchanged(s: string)
    requires '>' !in s
    ensures ReplaceTags(s) == s
  {
    if s != [] {
      assert TagAtStart(s) == None by {
        if |s| >= 3 && s[0] == '<' && s[1] != '\n' {
          TagCloseNone(s, 2);
        }
      }
      assert forall d :: d in s[1..] ==> d in s;
      TextWithoutTagsUnchanged(s[1..]);
    }
  }

  lemma {:induction false} TagCloseNone(s: string, j: nat)
    requires '>' !in s
    ensures TagClose(s, j) == None
    decreases |s| - j
  {
    if j < |s| {
      TagCloseNone(s, j + 1);
    }
  }

  /** A run of one or more markers becomes exactly one replacement. */
  lemma {:induction false} MarkerRunReplaced(n: nat, rest: string, rep: string)
    requires n >= 1 && (rest == [] || rest[0] != Marker)
    ensures ReplaceMarkerRuns(seq(n, _ => Marker) + rest, rep) == rep + ReplaceMarkerRuns(rest, rep)
  {
    DropMarkersRun(n, rest);
  }

  lemma {:induction false} DropMarkersRun(n: nat, rest: string)
    requires rest == [] || rest[0] != Marker
    ensures DropMarkers(seq(n, _ => Marker) + rest) == rest
  {
    if n > 0 {
      var s := seq(n, _ => Marker) + rest;
      assert s[0] == Marker;
      assert s[1..] == seq(n - 1, _ => Marker) + rest;
      DropMarkersRun(n - 1, rest);
    } else {
      assert seq(n, _ => Marker) + rest == rest;
    }
  }
}
