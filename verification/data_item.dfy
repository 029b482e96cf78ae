/** Maximis.Toolkit.Xrm/ImportExport/XmlSpreadsheet/DataItem.cs: one cell of
    an XML spreadsheet export. Its Excel cell type and its text are worked
    out lazily from the value the first time either is read, unless they
    were set explicitly; a null or empty string counts as not set. The
    value's own text (ToString) and the date format are .NET formatting and
    enter as parameters. */
module DataItem {
  import opened Wrappers
  import opened Xrm

  /** string.IsNullOrEmpty. */
  predicate Unset(s: Option<string>) {
    s.None? || s.value == []
  }

  /** The Excel type of a non-null value: the numeric types are "Number",
      bool is "Boolean", DateTime is "DateTime" and everything else is
      "String". */
  function CellTypeOf(v: Value): (r: string)
    ensures r in {"Number", "Boolean", "DateTime", "String"}
  {
    match v
    case Int(_) => "Number"
    case Decimal(_) => "Number"
    case Double(_) => "Number"
    case Bool(_) => "Boolean"
    case DateTime(_, _) => "DateTime"
    case _ => "String"
  }

  /** The text of a non-null value: "1" or "0" for a bool, the date in the
      "yyyy-MM-ddTHH:mm:ss.fff" format `isoDate` stands for, and ToString
      otherwise. */
  function TextOf(v: Value, toString: Value -> string, isoDate: int -> string): string {
    match v
    case Bool(b) => if b then "1" else "0"
    case DateTime(ticks, _) => isoDate(ticks)
    case _ => toString(v)
  }

  /** The fields of a data item that the preparation reads and writes. */
  datatype ItemState = ItemState(Value: Value, cellType: Option<string>, valueString: Option<string>, ValueStyleId: Option<string>)

  /** PrepareForXmlSpreadsheet: a null value clears both fields; otherwise
      each field not yet set receives its computed value, and a date also
      sets the value style to "dateTime". */
  function Prepared(s: ItemState, toString: Value -> string, isoDate: int -> string): (r: ItemState)
    ensures r.Value == s.Value
    ensures s.Value == Null ==> r.cellType == None && r.valueString == None && r.ValueStyleId == s.ValueStyleId
    ensures s.Value != Null ==> !Unset(r.cellType)
    ensures s.Value != Null && !Unset(s.cellType) ==> r.cellType == s.cellType
    ensures s.Value != Null && !Unset(s.valueString) ==> r.valueString == s.valueString
    ensures s.Value != Null && Unset(s.cellType) ==> r.cellType == Some(CellTypeOf(s.Value))
    ensures s.Value != Null && Unset(s.valueString) ==> r.valueString == Some(TextOf(s.Value, toString, isoDate))
    ensures r.ValueStyleId == if s.Value.DateTime? then Some("dateTime") else s.ValueStyleId
  {
    if s.Value == Null then s.(cellType := None, valueString := None)
    else
      var withText := if Unset(s.valueString) then s.(valueString := Some(TextOf(s.Value, toString, isoDate))) else s;
      var withType := if Unset(s.cellType) then withText.(cellType := Some(CellTypeOf(s.Value))) else withText;
      if s.Value.DateTime? then withType.(ValueStyleId := Some("dateTime")) else withType
  }

  /** Preparing twice is preparing once. */
  lemma PreparedIdempotent(s: ItemState, toString: Value -> string, isoDate: int -> string)
    ensures Prepared(Prepared(s, toString, isoDate), toString, isoDate) == Prepared(s, toString, isoDate)
  {
  }

  /** A prepared item's cell type does not need preparing again, so reading
      it a second time changes nothing. */
  lemma CellTypeSettles(s: ItemState, toString: Value -> string, isoDate: int -> string)
    requires s.Value != Null
    ensures !Unset(Prepared(s, toString, isoDate).cellType)
    ensures Prepared(s, toString, isoDate).cellType.value in {"Number", "Boolean", "DateTime", "String"} || Prepared(s, toString, isoDate).cellType == s.cellType
  {
  }

  /** A bool reads as a Boolean cell holding "1" or "0". */
  lemma BooleanCells(b: bool, styleId: Option<string>, toString: Value -> string, isoDate: int -> string)
    ensures Prepared(ItemState(Bool(b), None, None, styleId), toString, isoDate)
         == ItemState(Bool(b), Some("Boolean"), Some(if b then "1" else "0"), styleId)
  {
  }

  class Item {
    var cellType: Option<string>
    var valueString: Option<string>
    var Value: Value
    var ValueStyleId: Option<string>

    function State(): ItemState
      reads this
    {
      ItemState(Value, cellType, valueString, ValueStyleId)
    }

    constructor (value: Value)
      ensures State() == ItemState(value, None, None, None)
    {
      Value := value;
      cellType := None;
      valueString := None;
      ValueStyleId := None;
    }

    /** The CellType setter. */
    method SetCellType(value: Option<string>)
      modifies this
      ensures State() == old(State()).(cellType := value)
    {
      cellType := value;
    }

    /** The ValueString setter. */
    method SetValueString(value: Option<string>)
      modifies this
      ensures State() == old(State()).(valueString := value)
    {
      valueString := value;
    }

    /** PrepareForXmlSpreadsheet. */
    method Prepare(toString: Value -> string, isoDate: int -> string)
      modifies this
      ensures State() == Prepared(old(State()), toString, isoDate)
    {
      if Value == Null {
        SetValueString(None);
        SetCellType(None);
      } else {
        if Value.Int? || Value.Decimal? || Value.Double? {
          if Unset(valueString) { valueString := Some(toString(Value)); }
          if Unset(cellType) { cellType := Some("Number"); }
        } else if Value.Bool? {
          if Unset(valueString) { valueString := Some(if Value.b then "1" else "0"); }
          if Unset(cellType) { cellType := Some("Boolean"); }
        } else if Value.DateTime? {
          if Unset(valueString) { valueString := Some(isoDate(Value.ticks)); }
          if Unset(cellType) { cellType := Some("DateTime"); }
          ValueStyleId := Some("dateTime");
        } else {
          if Unset(valueString) { valueString := Some(toString(Value)); }
          if Unset(cellType) { cellType := Some("String"); }
        }
      }
    }

    /** The CellType getter: prepares the item first when no cell type is
        set. */
    method GetCellType(toString: Value -> string, isoDate: int -> string) returns (r: Option<string>)
      modifies this
      ensures State() == if Unset(old(cellType)) then Prepared(old(State()), toString, isoDate) else old(State())
      ensures r == cellType
    {
      if Unset(cellType) {
        Prepare(toString, isoDate);
      }
      return cellType;
    }

    /** The ValueString getter: prepares the item first when no text is
        set. */
    method GetValueString(toString: Value -> string, isoDate: int -> string) returns (r: Option<string>)
      modifies this
      ensures State() == if Unset(old(valueString)) then Prepared(old(State()), toString, isoDate) else old(State())
      ensures r == valueString
    {
      if Unset(valueString) {
        Prepare(toString, isoDate);
      }
      return valueString;
    }
  }

  /** What the getters return, as functions of the item's state: a non-null
      value always has a cell type, an explicitly set one is returned as
      it is, and a null value reads as null. */
  lemma GetterResults(s: ItemState, toString: Value -> string, isoDate: int -> string)
    ensures var t := if Unset(s.cellType) then Prepared(s, toString, isoDate).cellType else s.cellType;
      && (s.Value != Null ==> !Unset(t))
      && (!Unset(s.cellType) ==> t == s.cellType)
      && (s.Value == Null && Unset(s.cellType) ==> t == None)
    ensures var v := if Unset(s.valueString) then Prepared(s, toString, isoDate).valueString else s.valueString;
      && (!Unset(s.valueString) ==> v == s.valueString)
      && (s.Value == Null && Unset(s.valueString) ==> v == None)
      && (s.Value.Bool? ==> v == Some(if s.Value.b then "1" else "0") || v == s.valueString)
  {
  }

  /** Reading the cell type of an item whose value is null clears an
      explicitly set text as well. */
  lemma NullValueClearsText(text: string, toString: Value -> string, isoDate: int -> string)
    requires text != []
    ensures Prepared(ItemState(Null, None, Some(text), None), toString, isoDate).valueString == None
  {
  }
}
