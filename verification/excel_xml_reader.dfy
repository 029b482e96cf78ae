/** Maximis.Toolkit/Office/ExcelXmlReader.cs: turning spreadsheet cell
    references such as "AB12" into column numbers, padding a row's cells
    with blank ones so that each lands in its column, and naming the
    worksheet parts of an .xlsx package. Reading the zip package and the
    XML documents is not part of this model. */
module ExcelXmlReader {
  import opened Wrappers
  import opened Text

  /** The error that int.Parse throws for text that is not a number. */
  const BadFormat := "FormatException: Input string was not in a correct format."

  // ------------------------------------------------------- Column numbers

  /** columnName[i] - 'A' + 1 after ToUpperInvariant: 1 for A up to 26 for Z. */
  function LetterValue(c: char): int {
    ToUpperChar(c) as int - 'A' as int + 1
  }

  predicate IsLetter(c: char) {
    'A' <= c <= 'Z' || 'a' <= c <= 'z'
  }

  predicate AllLetters(s: string) {
    forall i :: 0 <= i < |s| ==> IsLetter(s[i])
  }

  /** The bijective base-26 value of a column name: each letter in turn
      multiplies the sum so far by 26 and adds its value. */
  function ColumnNumber(name: string): int {
    if name == [] then 0 else ColumnNumber(name[..|name| - 1]) * 26 + LetterValue(name[|name| - 1])
  }

  /** ExcelColumnNameToNumber. */
  method ExcelColumnNameToNumber(columnName: string) returns (sum: int)
    ensures sum == ColumnNumber(columnName)
    ensures sum == ColumnNumber(ToUpper(columnName))
  {
    var upper := ToUpper(columnName);
    sum := 0;
    var i := 0;
    while i < |upper|
      invariant 0 <= i <= |upper|
      invariant sum == ColumnNumber(upper[..i]) == ColumnNumber(columnName[..i])
    {
      ColumnNumberNext(upper, i);
      ColumnNumberNext(columnName, i);
      assert LetterValue(upper[i]) == LetterValue(columnName[i]);
      sum := sum * 26;
      sum := sum + (upper[i] as int - 'A' as int + 1);
      i := i + 1;
    }
    assert upper[..i] == upper && columnName[..i] == columnName;
  }

  /** One more letter of a name: the sum so far times 26 plus its value. */
  lemma ColumnNumberNext(s: string, i: nat)
    requires i < |s|
    ensures ColumnNumber(s[..i + 1]) == ColumnNumber(s[..i]) * 26 + LetterValue(s[i])
  {
    assert s[..i + 1][..i] == s[..i];
  }

  lemma ColumnNumberExamples()
    ensures ColumnNumber("A") == 1 && ColumnNumber("Z") == 26 && ColumnNumber("AA") == 27
    ensures ColumnNumber("az") == 52 && ColumnNumber("") == 0
  {
    assert "AA"[..1] == "A";
    assert "az"[..1] == "a";
  }

  /** The smallest and largest column numbers of names with n letters. */
  function Lowest(n: nat): nat {
    if n == 0 then 0 else Lowest(n - 1) * 26 + 1
  }

  function Highest(n: nat): nat {
    if n == 0 then 0 else Highest(n - 1) * 26 + 26
  }

  lemma {:induction false} LowestFollowsHighest(n: nat)
    ensures Highest(n) + 1 == Lowest(n + 1)
  {
    if n > 0 {
      LowestFollowsHighest(n - 1);
    }
  }

  lemma {:induction false} LowestMonotone(m: nat, n: nat)
    requires m <= n
    ensures Lowest(m) <= Lowest(n)
    decreases n - m
  {
    if m < n {
      LowestMonotone(m, n - 1);
    }
  }

  /** A name of n letters numbers a column from Lowest(n) to Highest(n). */
  lemma {:induction false} ColumnNumberRange(name: string)
    requires AllLetters(name)
    ensures Lowest(|name|) <= ColumnNumber(name) <= Highest(|name|)
  {
    if name != [] {
      ColumnNumberRange(name[..|name| - 1]);
    }
  }

  /** A longer name numbers a later column. */
  lemma LongerNameLaterColumn(a: string, b: string)
    requires AllLetters(a) && AllLetters(b) && |a| < |b|
    ensures ColumnNumber(a) < ColumnNumber(b)
  {
    ColumnNumberRange(a);
    ColumnNumberRange(b);
    LowestFollowsHighest(|a|);
    LowestMonotone(|a| + 1, |b|);
  }

  /** Two names number the same column exactly when they are the same name
      up to letter case. */
  lemma ColumnNumberInjective(a: string, b: string)
    requires AllLetters(a) && AllLetters(b)
    ensures ColumnNumber(a) == ColumnNumber(b) <==> ToUpper(a) == ToUpper(b)
  {
    SameLettersInjective(a, b);
    if |a| == |b| && SameLetters(a, b) {
      assert ToUpper(a) == ToUpper(b) by {
        forall i | 0 <= i < |a| ensures ToUpper(a)[i] == ToUpper(b)[i] {
        }
      }
    }
    if ToUpper(a) == ToUpper(b) {
      forall i | 0 <= i < |a| ensures ToUpperChar(a[i]) == ToUpperChar(b[i]) {
        assert ToUpper(a)[i] == ToUpper(b)[i];
      }
    }
  }

  /** Two names of one length that agree letter by letter up to case. */
  predicate SameLetters(a: string, b: string)
    requires |a| == |b|
  {
    forall i :: 0 <= i < |a| ==> ToUpperChar(a[i]) == ToUpperChar(b[i])
  }

  lemma {:induction false} SameLettersInjective(a: string, b: string)
    requires AllLetters(a) && AllLetters(b)
    ensures ColumnNumber(a) == ColumnNumber(b) <==> |a| == |b| && SameLetters(a, b)
  {
    if |a| < |b| {
      LongerNameLaterColumn(a, b);
    } else if |b| < |a| {
      LongerNameLaterColumn(b, a);
    } else if a != [] {
      var a', b' := a[..|a| - 1], b[..|b| - 1];
      SameLettersInjective(a', b');
      LastLetter(ColumnNumber(a'), ColumnNumber(b'), a[|a| - 1], b[|b| - 1]);
      if SameLetters(a', b') && ToUpperChar(a[|a| - 1]) == ToUpperChar(b[|b| - 1]) {
        forall i | 0 <= i < |a| ensures ToUpperChar(a[i]) == ToUpperChar(b[i]) {
          if i < |a| - 1 {
            assert a'[i] == a[i] && b'[i] == b[i];
          }
        }
      }
      if SameLetters(a, b) {
        forall i | 0 <= i < |a'| ensures ToUpperChar(a'[i]) == ToUpperChar(b'[i]) {
          assert a'[i] == a[i] && b'[i] == b[i];
        }
      }
    }
  }

  /** The column number of a name is 26 times that of its prefix plus a
      letter value from 1 to 26, so it determines both. */
  lemma LastLetter(x: int, y: int, c: char, d: char)
    requires IsLetter(c) && IsLetter(d)
    ensures x * 26 + LetterValue(c) == y * 26 + LetterValue(d) <==> x == y && ToUpperChar(c) == ToUpperChar(d)
  {
    if x < y {
      assert x * 26 + 26 <= y * 26;
    } else if y < x {
      assert y * 26 + 26 <= x * 26;
    }
  }

  // ------------------------------------------------------------ Blank cells

  /** The first match of `[A-Z]*` (ignoring case): the letters a cell
      reference starts with. */
  function LeadingLetters(cellRef: string): (r: string)
    ensures r <= cellRef && AllLetters(r)
    ensures |r| < |cellRef| ==> !IsLetter(cellRef[|r|])
  {
    if cellRef != [] && IsLetter(cellRef[0]) then [cellRef[0]] + LeadingLetters(cellRef[1..]) else []
  }

  /** The column a cell reference names. */
  function ReferenceColumn(cellRef: string): int {
    ColumnNumber(LeadingLetters(cellRef))
  }

  /** CalculateBlankCells: how many columns lie between the next free column
      and the referenced one. */
  function CalculateBlankCells(currentCellIndex: int, cellRef: string): (r: int)
    ensures r + currentCellIndex == ReferenceColumn(cellRef)
    ensures r > 0 <==> ReferenceColumn(cellRef) > currentCellIndex
  {
    ReferenceColumn(cellRef) - currentCellIndex
  }

  /** Whatever follows the letters does not change the column: "B7" and
      "B12" are both in column 2. */
  lemma RowDigitsIgnored(letters: string, digits: string)
    requires AllLetters(letters)
    requires forall i :: 0 <= i < |digits| ==> '0' <= digits[i] <= '9'
    ensures ReferenceColumn(letters + digits) == ColumnNumber(letters)
  {
    LeadingLettersStop(letters, digits);
  }

  lemma {:induction false} LeadingLettersStop(letters: string, rest: string)
    requires AllLetters(letters)
    requires rest == [] || !IsLetter(rest[0])
    ensures LeadingLetters(letters + rest) == letters
  {
    if letters == [] {
      assert letters + rest == rest;
    } else {
      assert (letters + rest)[1..] == letters[1..] + rest;
      LeadingLettersStop(letters[1..], rest);
    }
  }

  // ------------------------------------------------------------ Row padding

  /** The columns a row's cell references name, in document order. */
  function Columns(cellRefs: seq<string>): (cols: seq<int>)
    ensures |cols| == |cellRefs|
    ensures forall k :: 0 <= k < |cellRefs| ==> cols[k] == ReferenceColumn(cellRefs[k])
  {
    if cellRefs == [] then [] else [ReferenceColumn(cellRefs[0])] + Columns(cellRefs[1..])
  }

  /** Column numbers from 1 upward, each later than the one before. */
  predicate StrictlyIncreasing(cols: seq<int>) {
    && (cols != [] ==> cols[0] >= 1)
    && forall j, k :: 0 <= j < k < |cols| ==> cols[j] < cols[k]
  }

  /** The cell indexes among the written `c` elements, in order. */
  function CellsOf(written: seq<Option<nat>>): seq<nat> {
    if written == [] then []
    else (if written[0].Some? then [written[0].value] else []) + CellsOf(written[1..])
  }

  lemma {:induction false} CellsOfAppend(a: seq<Option<nat>>, b: seq<Option<nat>>)
    ensures CellsOf(a + b) == CellsOf(a) + CellsOf(b)
  {
    if a != [] {
      assert (a + b)[0] == a[0] && (a + b)[1..] == a[1..] + b;
      CellsOfAppend(a[1..], b);
    } else {
      assert a + b == b;
    }
  }

  /** n blank elements. */
  function Blanks(n: nat): seq<Option<nat>> {
    seq(n, _ => None)
  }

  lemma {:induction false} CellsOfBlanks(n: nat)
    ensures CellsOf(Blanks(n)) == []
  {
    if n > 0 {
      assert Blanks(n)[1..] == Blanks(n - 1);
      CellsOfBlanks(n - 1);
    }
  }

  function Range(n: nat): seq<nat> {
    seq(n, k => k)
  }

  /** The first k cells sit at their columns in `written`, which ends at
      the k-th cell's column, and nothing else is a cell. */
  predicate Placed(cols: seq<int>, k: nat, written: seq<Option<nat>>)
    requires k <= |cols|
  {
    && |written| == (if k == 0 then 0 else cols[k - 1])
    && (forall j :: 0 <= j < k ==> 1 <= cols[j] <= |written| && written[cols[j] - 1] == Some(j))
    && (forall p :: 0 <= p < |written| && written[p].Some? ==> written[p].value < k && cols[written[p].value] == p + 1)
  }

  /** Padding up to the next cell's column and writing that cell keeps the
      cells in place. */
  lemma PlaceNext(cols: seq<int>, k: nat, before: seq<Option<nat>>)
    requires StrictlyIncreasing(cols) && k < |cols| && Placed(cols, k, before)
    ensures cols[k] - |before| - 1 >= 0
    ensures Placed(cols, k + 1, before + Blanks(cols[k] - |before| - 1) + [Some(k)])
  {
    assert k > 0 ==> cols[k - 1] < cols[k];
    var written := before + Blanks(cols[k] - |before| - 1) + [Some(k)];
    PlaceNextCells(cols, k, before, written);
    PlaceNextColumns(cols, k, before, written);
  }

  lemma PlaceNextCells(cols: seq<int>, k: nat, before: seq<Option<nat>>, written: seq<Option<nat>>)
    requires k < |cols| && Placed(cols, k, before) && cols[k] - |before| - 1 >= 0
    requires written == before + Blanks(cols[k] - |before| - 1) + [Some(k)]
    ensures forall p :: 0 <= p < |written| && written[p].Some? ==> written[p].value < k + 1 && cols[written[p].value] == p + 1
  {
    var blanks := Blanks(cols[k] - |before| - 1);
    assert forall p :: |before| <= p < |before| + |blanks| ==> written[p] == blanks[p - |before|] == None;
    forall p | 0 <= p < |written| && written[p].Some?
      ensures written[p].value < k + 1 && cols[written[p].value] == p + 1
    {
      if p < |before| {
        assert written[p] == before[p];
      }
    }
  }

  lemma PlaceNextColumns(cols: seq<int>, k: nat, before: seq<Option<nat>>, written: seq<Option<nat>>)
    requires k < |cols| && Placed(cols, k, before) && cols[k] - |before| - 1 >= 0
    requires written == before + Blanks(cols[k] - |before| - 1) + [Some(k)]
    ensures forall j :: 0 <= j < k + 1 ==> 1 <= cols[j] <= |written| && written[cols[j] - 1] == Some(j)
  {
    forall j | 0 <= j < k + 1
      ensures 1 <= cols[j] <= |written| && written[cols[j] - 1] == Some(j)
    {
      if j < k {
        assert written[cols[j] - 1] == before[cols[j] - 1];
      }
    }
  }

  /** Blanks and then cell k after the first k cells give the first k + 1. */
  lemma CellsNext(before: seq<Option<nat>>, n: nat, k: nat)
    requires CellsOf(before) == Range(k)
    ensures CellsOf(before + Blanks(n) + [Some(k)]) == Range(k + 1)
  {
    CellsOfBlanks(n);
    CellsOfAppend(before, Blanks(n));
    CellsOfAppend(before + Blanks(n), [Some(k)]);
    assert CellsOf([Some(k)]) == [k];
    assert Range(k + 1) == Range(k) + [k];
  }

  /** The `c` elements written for one row: a blank element (None) for each
      skipped column and the row's k-th cell (Some(k)) where it belongs.
      The cells always come out once each and in order; when the references
      name strictly increasing columns, cell k is the element at its
      column and the row is as long as the last cell's column. */
  method PadRow(cellRefs: seq<string>) returns (written: seq<Option<nat>>)
    ensures CellsOf(written) == Range(|cellRefs|)
    ensures StrictlyIncreasing(Columns(cellRefs)) ==> Placed(Columns(cellRefs), |cellRefs|, written)
  {
    ghost var cols := Columns(cellRefs);
    ghost var increasing := StrictlyIncreasing(cols);
    written := [];
    var currentCellIndex := 1;
    var k: nat := 0;
    while k < |cellRefs|
      invariant 0 <= k <= |cellRefs|
      invariant CellsOf(written) == Range(k)
      invariant increasing ==> currentCellIndex == |written| + 1 && Placed(cols, k, written)
    {
      var blankCells := CalculateBlankCells(currentCellIndex, cellRefs[k]);
      currentCellIndex := currentCellIndex + 1;
      ghost var before := written;
      assert increasing ==> blankCells == cols[k] - |before| - 1;
      var i := 0;
      if blankCells > 0 {
        while i < blankCells
          invariant 0 <= i <= blankCells
          invariant written == before + Blanks(i)
          invariant increasing ==> currentCellIndex == |before| + 2 + i
        {
          BlanksNext(i);
          var blank: Option<nat> := None;
          written := written + [blank];
          currentCellIndex := currentCellIndex + 1;
          i := i + 1;
        }
      }
      var cell: Option<nat> := Some(k);
      written := written + [cell];
      PadRowStep(cols, k, before, i, written);
      k := k + 1;
    }
  }

  lemma BlanksNext(n: nat)
    ensures Blanks(n + 1) == Blanks(n) + [None]
  {
  }

  /** One more cell written after its blanks keeps the row's invariant. */
  lemma PadRowStep(cols: seq<int>, k: nat, before: seq<Option<nat>>, n: nat, written: seq<Option<nat>>)
    requires k < |cols| && CellsOf(before) == Range(k)
    requires StrictlyIncreasing(cols) ==> Placed(cols, k, before) && n == cols[k] - |before| - 1
    requires written == before + Blanks(n) + [Some(k)]
    ensures CellsOf(written) == Range(k + 1)
    ensures StrictlyIncreasing(cols) ==> |written| == cols[k] && Placed(cols, k + 1, written)
  {
    CellsNext(before, n, k);
    if StrictlyIncreasing(cols) {
      PlaceNext(cols, k, before);
    }
  }

  // ------------------------------------------------------ Worksheet names

  /** The package part of the i-th worksheet, counting from 1. */
  function SheetPath(i: nat): string {
    "xl/worksheets/sheet" + NatToString(i) + ".xml"
  }

  lemma SheetPathInjective(i: nat, j: nat)
    requires SheetPath(i) == SheetPath(j)
    ensures i == j
  {
    var p, s := "xl/worksheets/sheet", ".xml";
    var a, b := NatToString(i), NatToString(j);
    assert |a| == |b|;
    assert a == (p + a + s)[|p|..|p| + |a|];
    assert b == (p + b + s)[|p|..|p| + |b|];
    NatToStringInjective(i, j);
  }

  /** The parts of the first n worksheets. */
  ghost function SheetPaths(n: nat): set<string> {
    if n == 0 then {} else SheetPaths(n - 1) + {SheetPath(n)}
  }

  lemma {:induction false} SheetPathsListed(n: nat)
    ensures SheetPaths(n) == set i | 1 <= i <= n :: SheetPath(i)
  {
    if n > 0 {
      SheetPathsListed(n - 1);
      assert (set i | 1 <= i <= n :: SheetPath(i)) == (set i | 1 <= i <= n - 1 :: SheetPath(i)) + {SheetPath(n)};
    }
  }

  /** A later part is none of the parts before it. */
  lemma {:induction false} SheetPathNew(n: nat, m: nat)
    requires m < n
    ensures SheetPath(n) !in SheetPaths(m)
  {
    if m > 0 {
      SheetPathNew(n, m - 1);
      if SheetPath(n) == SheetPath(m) {
        SheetPathInjective(n, m);
      }
    }
  }

  /** PopulateWorksheetNames: the i-th title (from 1) is added under
      SheetPath(i). Dictionary.Add throws when a path is already a key of
      the dictionary it is given; the generated paths never clash with each
      other. */
  method PopulateWorksheetNames(worksheetNames: map<string, string>, titles: seq<string>) returns (r: Result<map<string, string>>)
    ensures r.Success? <==> forall i :: 1 <= i <= |titles| ==> SheetPath(i) !in worksheetNames
    ensures r.Success? ==> r.value.Keys == worksheetNames.Keys + (set i | 1 <= i <= |titles| :: SheetPath(i))
    ensures r.Success? ==> forall i :: 1 <= i <= |titles| ==> r.value[SheetPath(i)] == titles[i - 1]
    ensures r.Success? ==> forall key :: key in worksheetNames ==> r.value[key] == worksheetNames[key]
  {
    var names := worksheetNames;
    var i := 0;
    while i < |titles|
      invariant 0 <= i <= |titles|
      invariant forall j :: 1 <= j <= i ==> SheetPath(j) !in worksheetNames
      invariant names.Keys == worksheetNames.Keys + SheetPaths(i)
      invariant forall j :: 1 <= j <= i ==> SheetPath(j) in names && names[SheetPath(j)] == titles[j - 1]
      invariant forall key :: key in worksheetNames ==> names[key] == worksheetNames[key]
    {
      i := i + 1;
      var path := SheetPath(i);
      SheetPathNew(i, i - 1);
      if path in names {
        return Failure(DuplicateKey);
      }
      names := names[path := titles[i - 1]];
    }
    SheetPathsListed(i);
    return Success(names);
  }

  // ------------------------------------------------------ Package entries

  /** What the constructor does with a zip entry, by its name. */
  datatype EntryKind = AppProperties | SharedStringTable | WorksheetPart | Ignored

  function ClassifyEntry(name: string): (k: EntryKind)
    ensures k == AppProperties <==> name == "docProps/app.xml"
    ensures k == SharedStringTable <==> name == "xl/sharedStrings.xml"
    ensures k == WorksheetPart <==> name != "docProps/app.xml" && name != "xl/sharedStrings.xml" && ContainsString(name, "xl/worksheets/sheet")
  {
    if name == "docProps/app.xml" then AppProperties
    else if name == "xl/sharedStrings.xml" then SharedStringTable
    else if ContainsString(name, "xl/worksheets/sheet") then WorksheetPart
    else Ignored
  }

  /** Every part PopulateWorksheetNames names is a worksheet part. */
  lemma SheetPathIsWorksheetPart(i: nat)
    ensures ClassifyEntry(SheetPath(i)) == WorksheetPart
  {
    var p := "xl/worksheets/sheet";
    assert OccursAt(SheetPath(i), p, 0) by {
      assert SheetPath(i)[..|p|] == p;
    }
    assert SheetPath(i)[0] == 'x';
  }

  /** The Worksheets dictionary: each title maps to the content of its part.
      A part without content throws KeyNotFoundException, read before the
      title is added, and a repeated title throws ArgumentException; which
      key comes first in the dictionary's order is not modelled. */
  method BuildWorksheets(worksheetNames: map<string, string>, worksheetContent: map<string, string>) returns (r: Result<map<string, string>>)
    ensures r.Success? <==>
      && worksheetNames.Keys <= worksheetContent.Keys
      && forall a, b :: a in worksheetNames && b in worksheetNames && worksheetNames[a] == worksheetNames[b] ==> a == b
    ensures r.Success? ==>
      && r.value.Keys == worksheetNames.Values
      && forall key :: key in worksheetNames ==> r.value[worksheetNames[key]] == worksheetContent[key]
  {
    var worksheets: map<string, string> := map[];
    var remaining := worksheetNames.Keys;
    while remaining != {}
      invariant remaining <= worksheetNames.Keys
      invariant forall key :: key in worksheetNames && key !in remaining ==> key in worksheetContent
      invariant forall a, b :: a in worksheetNames && b in worksheetNames && a !in remaining && b !in remaining && worksheetNames[a] == worksheetNames[b] ==> a == b
      invariant worksheets.Keys == set key | key in worksheetNames && key !in remaining :: worksheetNames[key]
      invariant forall key :: key in worksheetNames && key !in remaining ==> worksheets[worksheetNames[key]] == worksheetContent[key]
      decreases remaining
    {
      var key :| key in remaining;
      var title := worksheetNames[key];
      if key !in worksheetContent {
        return Failure(KeyNotFound);
      }
      if title in worksheets {
        return Failure(DuplicateKey);
      }
      worksheets := worksheets[title := worksheetContent[key]];
      remaining := remaining - {key};
    }
    return Success(worksheets);
  }

  // ------------------------------------------------------------ Cell text

  /** The text written inside a `c` element: nothing for an empty cell; for
      a shared string (attribute t = "s") the indexed entry of the shared
      string table with non-breaking spaces turned into spaces; for a date
      (attribute s = "1") the OLE automation date formatted by the culture,
      given as `formatOADate`; otherwise the cell's own text. `parseInt`
      stands for int.Parse, None when it throws FormatException. */
  function CellText(innerText: string, t: Option<string>, s: Option<string>, sharedStrings: seq<string>,
                    parseInt: string -> Option<int>, formatOADate: int -> string): (r: Result<string>)
    ensures innerText == [] ==> r == Success([])
    ensures innerText != [] && t == Some("s") ==>
      (r.Success? <==> parseInt(innerText).Some? && 0 <= parseInt(innerText).value < |sharedStrings|)
    ensures r.Success? && t == Some("s") && innerText != [] ==>
      r.value == ReplaceChar(sharedStrings[parseInt(innerText).value], '\U{00A0}', " ") && '\U{00A0}' !in r.value
    ensures innerText != [] && t != Some("s") && s == Some("1") ==>
      (r.Success? <==> parseInt(innerText).Some?) && (r.Success? ==> r.value == formatOADate(parseInt(innerText).value))
    ensures innerText != [] && t != Some("s") && s != Some("1") ==> r == Success(innerText)
  {
    if innerText == [] then Success([])
    else if t == Some("s") then
      match parseInt(innerText)
      case None => Failure(BadFormat)
      case Some(n) =>
        if 0 <= n < |sharedStrings| then Success(ReplaceChar(sharedStrings[n], '\U{00A0}', " "))
        else Failure(KeyNotFound)
    else if s == Some("1") then
      match parseInt(innerText)
      case None => Failure(BadFormat)
      case Some(n) => Success(formatOADate(n))
    else Success(innerText)
  }
}
