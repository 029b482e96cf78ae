/** Maximis.Toolkit/Csv/CsvWriter.cs: a writer of comma-separated rows over
    a text output. The header row is written by the constructor; each data
    value is written as one cell, a cell at index 0 starting a new line.
    Quotes inside a value are escaped as \" (backslash, quote), not doubled
    as RFC 4180 section 2 rule 7 would have it. */
module Csv {
  import opened Wrappers
  import opened Text

  /** The TextWriter the CSV writer appends to; its text is all that was
      written to it. */
  class TextBuffer {
    var Text: string

    constructor ()
      ensures Text == []
    {
      Text := [];
    }

    method Write(s: string)
      modifies this
      ensures Text == old(Text) + s
    {
      Text := Text + s;
    }

    method WriteLine()
      modifies this
      ensures Text == old(Text) + NewLine
    {
      Text := Text + NewLine;
    }
  }

  /** The regular expression `[,\s\n]`: a comma or a whitespace character. */
  predicate NeedsQuotes(v: string) {
    exists i :: 0 <= i < |v| && (v[i] == ',' || IsWhiteSpace(v[i]))
  }

  /** val.Replace("\"", "\\\""). */
  function EscapeQuotes(v: string): string {
    ReplaceAll(v, "\"", "\\\"")
  }

  /** Reads back an escaped value: each \" becomes ". */
  function UnescapeQuotes(s: string): string {
    if |s| >= 2 && s[0] == '\\' && s[1] == '"' then "\"" + UnescapeQuotes(s[2..])
    else if s == [] then []
    else [s[0]] + UnescapeQuotes(s[1..])
  }

  /** The characters written for one value, without its separators. */
  function FormatField(val: Option<string>, alwaysQuote: bool): string {
    if val.None? || IsBlank(val.value) then ""
    else
      var v := EscapeQuotes(Trim(val.value));
      if alwaysQuote || NeedsQuotes(v) then "\"" + v + "\"" else v
  }

  /** The characters WriteValue(index, val, isHeaderRow) appends. */
  function Cell(index: int, val: Option<string>, isHeaderRow: bool, alwaysQuote: bool): string {
    (if !isHeaderRow && index == 0 then NewLine else "")
    + (if index > 0 then "," else "")
    + FormatField(val, alwaysQuote)
  }

  /** The header cells for `headings`, each quoted as the constructor does. */
  function HeaderCells(headings: seq<string>): string {
    if headings == [] then []
    else HeaderCells(headings[..|headings| - 1]) + Cell(|headings| - 1, Some(headings[|headings| - 1]), true, true)
  }

  predicate Distinct(headings: seq<string>) {
    forall i, j :: 0 <= i < j < |headings| ==> headings[i] != headings[j]
  }

  /** The position of the first heading that repeats an earlier one, or -1. */
  function FirstDuplicate(headings: seq<string>): (k: int)
    ensures k == -1 <==> Distinct(headings)
    ensures k >= 0 ==> k < |headings| && headings[k] in headings[..k] && Distinct(headings[..k])
  {
    if headings == [] then -1
    else
      var init := headings[..|headings| - 1];
      var k := FirstDuplicate(init);
      if k >= 0 then
        assert init[..k] == headings[..k];
        k
      else if headings[|headings| - 1] in init then |headings| - 1
      else
        assert forall i :: 0 <= i < |init| ==> init[i] == headings[i];
        -1
  }

  /** `m` maps heading i of `headings` to i, and holds no other key. */
  predicate IndexesAll(m: map<string, int>, headings: seq<string>) {
    && m.Keys == (set i | 0 <= i < |headings| :: headings[i])
    && forall i :: 0 <= i < |headings| ==> m[headings[i]] == i
  }

  lemma RegisterHeading(m: map<string, int>, headings: seq<string>, i: nat)
    requires i < |headings| && IndexesAll(m, headings[..i]) && Distinct(headings[..i])
    ensures headings[i] in m <==> headings[i] in headings[..i]
    ensures headings[i] !in m ==> IndexesAll(m[headings[i] := i], headings[..i + 1]) && Distinct(headings[..i + 1])
    ensures HeaderCells(headings[..i + 1]) == HeaderCells(headings[..i]) + Cell(i, Some(headings[i]), true, true)
  {
    var h, h' := headings[..i], headings[..i + 1];
    assert h'[..i] == h;
    if headings[i] in m {
      var j :| 0 <= j < |h| && h[j] == headings[i];
    }
    if headings[i] !in m {
      var m' := m[headings[i] := i];
      assert m'.Keys == (set k | 0 <= k < |h'| :: h'[k]) by {
        forall x | x in m'.Keys ensures x in (set k | 0 <= k < |h'| :: h'[k]) {
          if x != headings[i] {
            var k :| 0 <= k < |h| && h[k] == x;
            assert h'[k] == x;
          } else {
            assert h'[i] == x;
          }
        }
      }
      assert forall k :: 0 <= k < i ==> h'[k] == h[k] && h[k] != headings[i];
    }
  }

  class CsvWriter {
    var alwaysEncloseInQuotes: bool
    var ColumnCount: int
    var HeadingIndex: map<string, int>
    var Writer: TextBuffer

    /** Heading i of `headings` is at index i, and no other key is present. */
    ghost predicate IndexesHeadings(headings: seq<string>)
      reads this
    {
      IndexesAll(HeadingIndex, headings)
    }

    constructor Init(writer: TextBuffer)
      ensures Writer == writer && HeadingIndex == map[] && ColumnCount == 0 && alwaysEncloseInQuotes
    {
      Writer := writer;
      HeadingIndex := map[];
      ColumnCount := 0;
      alwaysEncloseInQuotes := true;
    }

    /** The CsvWriter constructor: each heading is registered under its
        position and written as a quoted header cell. A repeated heading
        makes Dictionary.Add throw, after the cells before it were written. */
    static method Create(writer: TextBuffer, headings: seq<string>) returns (r: Result<CsvWriter>)
      modifies writer
      ensures r.Success? <==> Distinct(headings)
      ensures r.Success? ==> fresh(r.value) && r.value.Writer == writer
      ensures r.Success? ==> r.value.IndexesHeadings(headings) && r.value.ColumnCount == |headings|
      ensures r.Success? ==> r.value.alwaysEncloseInQuotes
      ensures r.Success? ==> writer.Text == old(writer.Text) + HeaderCells(headings)
      ensures r.Failure? ==> writer.Text == old(writer.Text) + HeaderCells(headings[..FirstDuplicate(headings)])
    {
      var w := new CsvWriter.Init(writer);
      var i := 0;
      while i < |headings|
        invariant 0 <= i <= |headings| && Distinct(headings[..i])
        invariant w.Writer == writer && w.alwaysEncloseInQuotes && w.ColumnCount == 0
        invariant IndexesAll(w.HeadingIndex, headings[..i])
        invariant writer.Text == old(writer.Text) + HeaderCells(headings[..i])
      {
        RegisterHeading(w.HeadingIndex, headings, i);
        if headings[i] in w.HeadingIndex {
          DuplicateAt(headings, i);
          return Failure(DuplicateKey);
        }
        w.HeadingIndex := w.HeadingIndex[headings[i] := i];
        w.WriteCell(i, Some(headings[i]), true);
        Associativity3(old(writer.Text), HeaderCells(headings[..i]), Cell(i, Some(headings[i]), true, true));
        i := i + 1;
      }
      assert headings[..i] == headings;
      w.ColumnCount := |headings|;
      return Success(w);
    }

    /** Setter of AlwaysEncloseInQuotes. */
    method SetAlwaysEncloseInQuotes(value: bool)
      modifies this
      ensures alwaysEncloseInQuotes == value
      ensures Writer == old(Writer) && HeadingIndex == old(HeadingIndex) && ColumnCount == old(ColumnCount)
    {
      alwaysEncloseInQuotes := value;
    }

    /** WriteValue(int index, string val): a data cell. */
    method WriteValue(index: int, val: Option<string>)
      modifies Writer
      ensures Writer.Text == old(Writer.Text) + Cell(index, val, false, alwaysEncloseInQuotes)
    {
      WriteCell(index, val, false);
    }

    /** WriteValue(string columnHeading, string val): the data cell at the
        heading's index; an unknown heading throws KeyNotFoundException and
        writes nothing. */
    method WriteValueByHeading(columnHeading: string, val: Option<string>) returns (ok: bool)
      modifies Writer
      ensures ok <==> columnHeading in HeadingIndex
      ensures ok ==> Writer.Text == old(Writer.Text) + Cell(HeadingIndex[columnHeading], val, false, alwaysEncloseInQuotes)
      ensures !ok ==> Writer.Text == old(Writer.Text)
    {
      if columnHeading !in HeadingIndex {
        return false;
      }
      WriteCell(HeadingIndex[columnHeading], val, false);
      return true;
    }

    /** The private WriteValue(index, val, isHeaderRow). */
    method WriteCell(index: int, val: Option<string>, isHeaderRow: bool)
      modifies Writer
      ensures Writer.Text == old(Writer.Text) + Cell(index, val, isHeaderRow, alwaysEncloseInQuotes)
    {
      ghost var start := Writer.Text;
      ghost var lineBreak := if !isHeaderRow && index == 0 then NewLine else "";
      ghost var comma := if index > 0 then "," else "";
      ghost var field := FormatField(val, alwaysEncloseInQuotes);
      if !isHeaderRow && index == 0 {
        Writer.WriteLine();
      }
      assert Writer.Text == start + lineBreak;
      if index > 0 {
        Writer.Write(",");
      }
      assert Writer.Text == start + lineBreak + comma;
      if val.None? || IsBlank(val.value) {
        Writer.Write("");
      } else {
        var v := EscapeQuotes(Trim(val.value));
        Writer.Write(if alwaysEncloseInQuotes || NeedsQuotes(v) then "\"" + v + "\"" else v);
      }
      assert Writer.Text == start + lineBreak + comma + field;
      assert Cell(index, val, isHeaderRow, alwaysEncloseInQuotes) == lineBreak + comma + field;
      Associativity(start, lineBreak, comma, field);
    }
  }

  lemma DuplicateAt(headings: seq<string>, i: nat)
    requires i < |headings| && Distinct(headings[..i]) && headings[i] in headings[..i]
    ensures !Distinct(headings) && FirstDuplicate(headings) == i
  {
    var p := headings[..i + 1];
    assert p[..|p| - 1] == headings[..i];
    assert FirstDuplicate(p[..|p| - 1]) == -1;
    assert p[|p| - 1] in p[..|p| - 1];
    assert FirstDuplicate(p) == i;
    FirstDuplicateOfPrefix(headings, i + 1);
  }

  lemma FirstDuplicateOfPrefix(headings: seq<string>, n: nat)
    requires n <= |headings| && FirstDuplicate(headings[..n]) >= 0
    ensures FirstDuplicate(headings) == FirstDuplicate(headings[..n])
    decreases |headings| - n
  {
    if n < |headings| {
      var init := headings[..|headings| - 1];
      assert init[..n] == headings[..n];
      FirstDuplicateOfPrefix(init, n);
    } else {
      assert headings[..n] == headings;
    }
  }

  // ------------------------------------------------------------ Properties

  /** A data cell at index 0 starts a new line, a header cell never does;
      the field always comes last, preceded by exactly one comma at a
      positive index and by no comma at all otherwise. */
  lemma CellSeparators(index: int, val: Option<string>, isHeaderRow: bool, alwaysQuote: bool)
    ensures var c := Cell(index, val, isHeaderRow, alwaysQuote);
      var field := FormatField(val, alwaysQuote);
      && (!isHeaderRow && index == 0 ==> c[..|NewLine|] == NewLine)
      && |field| <= |c| && c[|c| - |field|..] == field
      && (index > 0 ==> c[..|c| - |field|] == ",")
      && (index <= 0 ==> ',' !in c[..|c| - |field|])
      && (isHeaderRow && index <= 0 ==> c == field)
  {
  }

  /** A null or blank value writes nothing but its separators. */
  lemma BlankValueWritesSeparatorsOnly(index: int, val: Option<string>, isHeaderRow: bool, alwaysQuote: bool)
    requires val.None? || IsBlank(val.value)
    ensures Cell(index, val, isHeaderRow, alwaysQuote)
         == (if !isHeaderRow && index == 0 then NewLine else "") + (if index > 0 then "," else "")
  {
  }

  /** Escaped text never starts with a quote: every quote is preceded by the
      backslash that escapes it. */
  lemma {:induction false} EscapedStart(s: string)
    ensures ReplaceChar(s, '"', "\\\"") == [] || ReplaceChar(s, '"', "\\\"")[0] != '"'
  {
  }

  /** Unescaping undoes the escaping of quotes. */
  lemma {:induction false} EscapeRoundTrip(s: string)
    ensures UnescapeQuotes(EscapeQuotes(s)) == s
  {
    ReplaceSingleChar(s, '"', "\\\"");
    EscapeCharRoundTrip(s);
  }

  lemma {:induction false} EscapeCharRoundTrip(s: string)
    ensures UnescapeQuotes(ReplaceChar(s, '"', "\\\"")) == s
  {
    if s != [] {
      var rest := ReplaceChar(s[1..], '"', "\\\"");
      EscapeCharRoundTrip(s[1..]);
      EscapedStart(s[1..]);
      if s[0] == '"' {
        assert ReplaceChar(s, '"', "\\\"") == "\\\"" + rest;
        assert ("\\\"" + rest)[2..] == rest;
      } else {
        assert ReplaceChar(s, '"', "\\\"") == [s[0]] + rest;
        assert ([s[0]] + rest)[1..] == rest;
      }
    }
  }

  lemma {:induction false} EscapeKeepsSeparators(s: string)
    ensures NeedsQuotes(EscapeQuotes(s)) <==> NeedsQuotes(s)
  {
    ReplaceSingleChar(s, '"', "\\\"");
    EscapeCharKeepsSeparators(s);
  }

  lemma {:induction false} EscapeCharKeepsSeparators(s: string)
    ensures NeedsQuotes(ReplaceChar(s, '"', "\\\"")) <==> NeedsQuotes(s)
  {
    if s != [] {
      var head := if s[0] == '"' then "\\\"" else [s[0]];
      var rest := ReplaceChar(s[1..], '"', "\\\"");
      EscapeCharKeepsSeparators(s[1..]);
      assert ReplaceChar(s, '"', "\\\"") == head + rest;
      if NeedsQuotes(s) {
        var i :| 0 <= i < |s| && (s[i] == ',' || IsWhiteSpace(s[i]));
        if i > 0 {
          assert s[1..][i - 1] == s[i];
          var j :| 0 <= j < |rest| && (rest[j] == ',' || IsWhiteSpace(rest[j]));
          assert (head + rest)[|head| + j] == rest[j];
        } else {
          assert (head + rest)[0] == s[0];
        }
      }
      if NeedsQuotes(head + rest) {
        var i :| 0 <= i < |head + rest| && ((head + rest)[i] == ',' || IsWhiteSpace((head + rest)[i]));
        if i >= |head| {
          assert rest[i - |head|] == (head + rest)[i];
          var j :| 0 <= j < |s[1..]| && (s[1..][j] == ',' || IsWhiteSpace(s[1..][j]));
          assert s[j + 1] == s[1..][j];
        } else {
          assert s[0] == (head + rest)[i];
        }
      }
    }
  }

  /** A non-blank value is written as its trimmed, escaped text, enclosed in
      quotes exactly when quoting is forced or the trimmed text holds a comma
      or whitespace; the unquoted form never starts with a quote. */
  lemma NonBlankField(val: string, alwaysQuote: bool)
    requires !IsBlank(val)
    ensures var f := FormatField(Some(val), alwaysQuote);
      && f != []
      && (f[0] == '"' <==> alwaysQuote || NeedsQuotes(Trim(val)))
      && (f[0] == '"' ==> f == "\"" + EscapeQuotes(Trim(val)) + "\"")
      && (f[0] != '"' ==> f == EscapeQuotes(Trim(val)))
      && UnescapeQuotes(if f[0] == '"' then f[1..|f| - 1] else f) == Trim(val)
  {
    var t := Trim(val);
    TrimBlank(val);
    EscapeKeepsSeparators(t);
    EscapeRoundTrip(t);
    ReplaceSingleChar(t, '"', "\\\"");
    EscapedStart(t);
    var v := EscapeQuotes(t);
    assert v != [] by {
      assert t != [];
      if t[0] == '"' {
        assert ReplaceChar(t, '"', "\\\"")[..2] == "\\\"" by {
          assert ReplaceChar(t, '"', "\\\"") == "\\\"" + ReplaceChar(t[1..], '"', "\\\"");
        }
      } else {
        assert ReplaceChar(t, '"', "\\\"")[0] == t[0] by {
          assert ReplaceChar(t, '"', "\\\"") == [t[0]] + ReplaceChar(t[1..], '"', "\\\"");
        }
      }
    }
    var f := FormatField(Some(val), alwaysQuote);
    if alwaysQuote || NeedsQuotes(v) {
      assert f == "\"" + v + "\"";
      assert f[1..|f| - 1] == v;
    }
  }
}
