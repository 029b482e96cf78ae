/** Maximis.Toolkit.Xrm/ImportExport/ImportExportHelper.cs: the list of
    column names an export query produces. Columns of a linked entity are
    qualified with the link's alias, "alias.attribute"; a column set that
    asks for all columns is expanded from the entity's metadata, primary id
    and primary name first, then the remaining attributes in order. */
module ImportExport {
  import opened Wrappers
  import opened Xrm
  import opened ToolkitExtensions

  /** ColumnSet: either every column, or the listed ones. */
  datatype ColumnSet = ColumnSet(AllColumns: bool, Columns: seq<string>)

  /** LinkEntity; an empty alias stands for a null one. */
  datatype LinkEntity = LinkEntity(LinkToEntityName: string, Columns: ColumnSet, EntityAlias: string)

  /** QueryExpression, reduced to the parts that decide its columns. */
  datatype Query = Query(EntityName: string, ColumnSet: ColumnSet, LinkEntities: seq<LinkEntity>)

  const MetadataNotFound := "FaultException: Could not find an entity with the specified name."

  // ---------------------------------------------------------- Qualification

  /** GetFullAttributeName: the name itself without an alias, otherwise
      "alias.name". */
  function GetFullAttributeName(attributeName: string, alias: string): (r: string)
    ensures alias == [] ==> r == attributeName
    ensures alias != [] ==>
      |r| == |alias| + 1 + |attributeName| && r[..|alias|] == alias && r[|alias|] == '.' && r[|alias| + 1..] == attributeName
  {
    if alias == [] then attributeName else alias + "." + attributeName
  }

  /** A qualified name splits back, at its first '.', into the alias and the
      attribute name, provided the alias has no '.' of its own. */
  lemma QualifiedNameSplits(attributeName: string, alias: string)
    requires alias != [] && '.' !in alias
    ensures LeftOfFirst(GetFullAttributeName(attributeName, alias), '.') == alias
    ensures RightOfFirst(GetFullAttributeName(attributeName, alias), '.') == attributeName
  {
    var r := GetFullAttributeName(attributeName, alias);
    assert r[|alias|] == '.';
    var left := LeftOfFirst(r, '.');
    assert left + ['.'] <= r && '.' !in left;
    assert r[|left|] == '.';
    assert forall k :: 0 <= k < |left| ==> r[k] == left[k] != '.';
    assert forall k :: 0 <= k < |alias| ==> r[k] == alias[k] != '.';
    assert left == r[..|left|] == alias;
    assert r == alias + ['.'] + attributeName;
  }

  /** Different attribute names stay different under one alias. */
  lemma QualificationInjective(a: string, b: string, alias: string)
    ensures GetFullAttributeName(a, alias) == GetFullAttributeName(b, alias) <==> a == b
  {
    if alias != [] {
      assert a == GetFullAttributeName(a, alias)[|alias| + 1..];
      assert b == GetFullAttributeName(b, alias)[|alias| + 1..];
    }
  }

  function Qualify(names: seq<string>, alias: string): (r: seq<string>)
    ensures |r| == |names|
    ensures forall i :: 0 <= i < |names| ==> r[i] == GetFullAttributeName(names[i], alias)
  {
    if names == [] then [] else Qualify(names[..|names| - 1], alias) + [GetFullAttributeName(names[|names| - 1], alias)]
  }

  // ---------------------------------------------------------------- Ordering

  /** Ordinal string order: the first differing character decides, and a
      proper prefix comes first. */
  predicate Less(a: string, b: string) {
    if b == [] then false
    else if a == [] then true
    else if a[0] != b[0] then a[0] < b[0]
    else Less(a[1..], b[1..])
  }

  lemma {:induction false} LessIrreflexive(a: string)
    ensures !Less(a, a)
  {
    if a != [] {
      LessIrreflexive(a[1..]);
    }
  }

  lemma {:induction false} LessTransitive(a: string, b: string, c: string)
    requires Less(a, b) && Less(b, c)
    ensures Less(a, c)
  {
    if a != [] && a[0] == b[0] && b[0] == c[0] {
      LessTransitive(a[1..], b[1..], c[1..]);
    }
  }

  lemma {:induction false} LessTotal(a: string, b: string)
    requires a != b
    ensures Less(a, b) || Less(b, a)
  {
    if a != [] && b != [] && a[0] == b[0] {
      assert a == [a[0]] + a[1..] && b == [b[0]] + b[1..];
      LessTotal(a[1..], b[1..]);
    }
  }

  predicate StrictlySorted(s: seq<string>) {
    forall i, j :: 0 <= i < j < |s| ==> Less(s[i], s[j])
  }

  /** Inserts x at its place in a strictly sorted list; a name already there
      is not added twice. */
  function InsertSorted(x: string, s: seq<string>): (r: seq<string>)
    requires StrictlySorted(s)
    ensures StrictlySorted(r)
    ensures forall n :: n in r <==> n in s || n == x
  {
    if s == [] then [x]
    else if x == s[0] then s
    else if Less(x, s[0]) then
      InsertedBefore(x, s);
      [x] + s
    else
      LessTotal(x, s[0]);
      var rest := InsertSorted(x, s[1..]);
      InsertedAfter(x, s, rest);
      [s[0]] + rest
  }

  lemma InsertedBefore(x: string, s: seq<string>)
    requires StrictlySorted(s) && s != [] && Less(x, s[0])
    ensures StrictlySorted([x] + s)
  {
    var r := [x] + s;
    forall i, j | 0 <= i < j < |r| ensures Less(r[i], r[j]) {
      assert r[j] == s[j - 1];
      if i > 0 {
        assert r[i] == s[i - 1];
      } else if j > 1 {
        LessTransitive(x, s[0], s[j - 1]);
      }
    }
  }

  lemma InsertedAfter(x: string, s: seq<string>, rest: seq<string>)
    requires StrictlySorted(s) && s != [] && Less(s[0], x)
    requires StrictlySorted(rest) && forall n :: n in rest <==> n in s[1..] || n == x
    ensures StrictlySorted([s[0]] + rest)
  {
    var r := [s[0]] + rest;
    forall i, j | 0 <= i < j < |r| ensures Less(r[i], r[j]) {
      assert r[j] == rest[j - 1];
      if i > 0 {
        assert r[i] == rest[i - 1];
      } else if rest[j - 1] != x {
        assert rest[j - 1] in rest;
        var k :| 0 <= k < |s[1..]| && s[1..][k] == rest[j - 1];
        assert s[k + 1] == rest[j - 1];
      }
    }
  }

  /** The names sorted by ordinal order, each once. */
  function SortedDistinct(names: seq<string>): (r: seq<string>)
    ensures StrictlySorted(r)
    ensures forall n :: n in r <==> n in names
  {
    if names == [] then []
    else
      var r := InsertSorted(names[|names| - 1], SortedDistinct(names[..|names| - 1]));
      assert names == names[..|names| - 1] + [names[|names| - 1]];
      r
  }

  /** Enumerable.Except: the distinct elements of `first` that are not in
      `second`, in the order of `first`. */
  function Except(first: seq<string>, second: seq<string>): (r: seq<string>)
    ensures forall n :: n in r <==> n in first && n !in second
    ensures StrictlySorted(first) ==> StrictlySorted(r)
  {
    if first == [] then []
    else
      var rest := Except(first[..|first| - 1], second);
      var x := first[|first| - 1];
      assert first == first[..|first| - 1] + [x];
      if x in second || x in rest then rest
      else
        ExceptSorted(first, rest);
        rest + [x]
  }

  lemma ExceptSorted(first: seq<string>, rest: seq<string>)
    requires first != [] && forall n :: n in rest ==> n in first[..|first| - 1]
    requires StrictlySorted(first) ==> StrictlySorted(rest)
    ensures StrictlySorted(first) ==> StrictlySorted(rest + [first[|first| - 1]])
  {
    if StrictlySorted(first) {
      var x := first[|first| - 1];
      var r := rest + [x];
      forall i, j | 0 <= i < j < |r| ensures Less(r[i], r[j]) {
        assert r[i] == rest[i];
        if j < |rest| {
          assert r[j] == rest[j];
        } else {
          assert rest[i] in rest;
          var k :| 0 <= k < |first| - 1 && first[..|first| - 1][k] == rest[i];
          assert first[k] == rest[i];
        }
      }
    }
  }

  // ----------------------------------------------------------------- Columns

  /** The columns of a column set, as the spreadsheet headings name them. */
  function ColumnSetAttributes(metadata: MetadataStore, entityType: string, columnSet: ColumnSet, alias: string): (r: Result<seq<string>>)
    ensures !columnSet.AllColumns ==> r == Success(Qualify(columnSet.Columns, alias))
    ensures columnSet.AllColumns ==> (r.Failure? <==> entityType !in metadata)
  {
    if !columnSet.AllColumns then Success(Qualify(columnSet.Columns, alias))
    else if entityType !in metadata then Failure(MetadataNotFound)
    else
      var meta := metadata[entityType];
      var prefix := PrimaryColumns(meta, alias);
      Success(prefix + Except(SortedDistinct(Qualify(AttributeNames(meta.Attributes), alias)), prefix))
  }

  /** The primary id and the primary name columns, each when there is one. */
  function PrimaryColumns(meta: EntityMetadata, alias: string): (r: seq<string>)
    ensures |r| <= 2
  {
    (if meta.PrimaryIdAttribute != [] then [GetFullAttributeName(meta.PrimaryIdAttribute, alias)] else [])
      + (if meta.PrimaryNameAttribute != [] then [GetFullAttributeName(meta.PrimaryNameAttribute, alias)] else [])
  }

  function AttributeNames(attributes: seq<AttributeMeta>): (r: seq<string>)
    ensures |r| == |attributes| && forall i :: 0 <= i < |r| ==> r[i] == attributes[i].LogicalName
  {
    if attributes == [] then [] else AttributeNames(attributes[..|attributes| - 1]) + [attributes[|attributes| - 1].LogicalName]
  }

  /** GetAllAttributesFromColumnSet. */
  method GetAllAttributesFromColumnSet(metadata: MetadataStore, entityType: string, columnSet: ColumnSet, alias: string)
    returns (r: Result<seq<string>>)
    ensures r == ColumnSetAttributes(metadata, entityType, columnSet, alias)
  {
    if columnSet.AllColumns {
      var attributes: seq<string> := [];
      if entityType !in metadata {
        return Failure(MetadataNotFound);
      }
      var meta := metadata[entityType];
      if meta.PrimaryIdAttribute != [] {
        attributes := attributes + [GetFullAttributeName(meta.PrimaryIdAttribute, alias)];
      }
      if meta.PrimaryNameAttribute != [] {
        attributes := attributes + [GetFullAttributeName(meta.PrimaryNameAttribute, alias)];
      }
      assert attributes == PrimaryColumns(meta, alias);
      attributes := attributes + Except(SortedDistinct(Qualify(AttributeNames(meta.Attributes), alias)), attributes);
      return Success(attributes);
    } else {
      return Success(Qualify(columnSet.Columns, alias));
    }
  }

  /** For all columns: the primary id first and the primary name second,
      each only when the metadata names one; then every other attribute,
      once, in ordinal order. */
  lemma AllColumnsOrder(metadata: MetadataStore, entityType: string, alias: string)
    requires entityType in metadata
    ensures var meta := metadata[entityType];
      var prefix := PrimaryColumns(meta, alias);
      var all := Qualify(AttributeNames(meta.Attributes), alias);
      var r := ColumnSetAttributes(metadata, entityType, ColumnSet(true, []), alias);
      && r.Success?
      && |r.value| >= |prefix| && r.value[..|prefix|] == prefix
      && StrictlySorted(r.value[|prefix|..])
      && forall n :: n in r.value[|prefix|..] <==> n in all && n !in prefix
  {
    var meta := metadata[entityType];
    var prefix := PrimaryColumns(meta, alias);
    var rest := Except(SortedDistinct(Qualify(AttributeNames(meta.Attributes), alias)), prefix);
    var all := Qualify(AttributeNames(meta.Attributes), alias);
    assert ColumnSetAttributes(metadata, entityType, ColumnSet(true, []), alias) == Success(prefix + rest);
    assert forall n :: n in SortedDistinct(all) <==> n in all;
    assert forall n :: n in rest <==> n in all && n !in prefix;
    assert (prefix + rest)[..|prefix|] == prefix && (prefix + rest)[|prefix|..] == rest;
  }

  /** A list of at most two different names followed by a strictly sorted
      list of other names repeats no name. */
  lemma PrefixThenSortedDistinct(prefix: seq<string>, rest: seq<string>)
    requires |prefix| <= 2 && (|prefix| == 2 ==> prefix[0] != prefix[1])
    requires StrictlySorted(rest) && forall n :: n in rest ==> n !in prefix
    ensures forall i, j :: 0 <= i < j < |prefix + rest| ==> (prefix + rest)[i] != (prefix + rest)[j]
  {
    var r := prefix + rest;
    forall i, j | 0 <= i < j < |r| ensures r[i] != r[j] {
      if i >= |prefix| {
        assert Less(rest[i - |prefix|], rest[j - |prefix|]);
        LessIrreflexive(r[i]);
      } else if j >= |prefix| {
        assert r[j] in rest;
      }
    }
  }

  /** No column is listed twice, unless the primary id and primary name are
      the same attribute. */
  lemma AllColumnsDistinct(metadata: MetadataStore, entityType: string, alias: string)
    requires entityType in metadata
    requires metadata[entityType].PrimaryIdAttribute != metadata[entityType].PrimaryNameAttribute
    ensures var r := ColumnSetAttributes(metadata, entityType, ColumnSet(true, []), alias);
      r.Success? && forall i, j :: 0 <= i < j < |r.value| ==> r.value[i] != r.value[j]
  {
    var meta := metadata[entityType];
    var prefix := PrimaryColumns(meta, alias);
    var rest := Except(SortedDistinct(Qualify(AttributeNames(meta.Attributes), alias)), prefix);
    QualificationInjective(meta.PrimaryIdAttribute, meta.PrimaryNameAttribute, alias);
    PrefixThenSortedDistinct(prefix, rest);
  }

  // ------------------------------------------------------------------- Query

  /** The columns of the link entities, in query order. */
  function LinkAttributes(metadata: MetadataStore, links: seq<LinkEntity>): Result<seq<string>> {
    if links == [] then Success([])
    else
      var last := links[|links| - 1];
      match LinkAttributes(metadata, links[..|links| - 1])
      case Failure(e) => Failure(e)
      case Success(before) =>
        match ColumnSetAttributes(metadata, last.LinkToEntityName, last.Columns, last.EntityAlias)
        case Failure(e) => Failure(e)
        case Success(cols) => Success(before + cols)
  }

  /** The columns of the query: the main entity's, then the links'. */
  function QueryAttributes(metadata: MetadataStore, query: Query): Result<seq<string>> {
    match ColumnSetAttributes(metadata, query.EntityName, query.ColumnSet, "")
    case Failure(e) => Failure(e)
    case Success(main) =>
      match LinkAttributes(metadata, query.LinkEntities)
      case Failure(e) => Failure(e)
      case Success(links) => Success(main + links)
  }

  /** GetAllQueryAttributes: the main entity's columns, then each link's. */
  method GetAllQueryAttributes(metadata: MetadataStore, query: Query) returns (r: Result<seq<string>>)
    ensures r == QueryAttributes(metadata, query)
  {
    var main := GetAllAttributesFromColumnSet(metadata, query.EntityName, query.ColumnSet, "");
    if main.Failure? {
      return Failure(main.error);
    }
    QueryParts(metadata, query, main.value);
    var linked := GetLinkAttributes(metadata, query.LinkEntities);
    if linked.Failure? {
      return Failure(linked.error);
    }
    return Success(main.value + linked.value);
  }

  /** The loop of GetAllQueryAttributes over the link entities. */
  method GetLinkAttributes(metadata: MetadataStore, links: seq<LinkEntity>) returns (r: Result<seq<string>>)
    ensures r == LinkAttributes(metadata, links)
  {
    var attributes: seq<string> := [];
    var i := 0;
    assert links[..0] == [];
    while i < |links|
      invariant 0 <= i <= |links|
      invariant LinkAttributes(metadata, links[..i]) == Success(attributes)
    {
      var le := links[i];
      var cols := GetAllAttributesFromColumnSet(metadata, le.LinkToEntityName, le.Columns, le.EntityAlias);
      if cols.Failure? {
        LinkFailure(metadata, links, i, cols.error);
        return Failure(cols.error);
      }
      LinkSuccess(metadata, links, i, attributes, cols.value);
      attributes := attributes + cols.value;
      i := i + 1;
    }
    assert links[..i] == links;
    return Success(attributes);
  }

  lemma QueryParts(metadata: MetadataStore, query: Query, main: seq<string>)
    requires ColumnSetAttributes(metadata, query.EntityName, query.ColumnSet, "") == Success(main)
    ensures LinkAttributes(metadata, query.LinkEntities).Failure? ==>
      QueryAttributes(metadata, query) == Failure(LinkAttributes(metadata, query.LinkEntities).error)
    ensures LinkAttributes(metadata, query.LinkEntities).Success? ==>
      QueryAttributes(metadata, query) == Success(main + LinkAttributes(metadata, query.LinkEntities).value)
  {
  }

  lemma LinkSuccess(metadata: MetadataStore, links: seq<LinkEntity>, i: nat, before: seq<string>, cols: seq<string>)
    requires i < |links| && LinkAttributes(metadata, links[..i]) == Success(before)
    requires ColumnSetAttributes(metadata, links[i].LinkToEntityName, links[i].Columns, links[i].EntityAlias) == Success(cols)
    ensures LinkAttributes(metadata, links[..i + 1]) == Success(before + cols)
  {
    assert links[..i + 1][..i] == links[..i] && links[..i + 1][i] == links[i];
  }

  /** A failing link makes every longer list of links fail with its error. */
  lemma {:induction false} LinkFailure(metadata: MetadataStore, links: seq<LinkEntity>, k: nat, e: string)
    requires k < |links|
    requires LinkAttributes(metadata, links[..k]).Success?
    requires ColumnSetAttributes(metadata, links[k].LinkToEntityName, links[k].Columns, links[k].EntityAlias) == Failure(e)
    ensures LinkAttributes(metadata, links) == Failure(e)
    decreases |links|
  {
    var init := links[..|links| - 1];
    if k < |links| - 1 {
      assert init[..k] == links[..k] && init[k] == links[k];
      LinkFailure(metadata, init, k, e);
    } else {
      assert init == links[..k];
    }
  }

  /** The main entity's columns come first and are unqualified, each link's
      columns follow, and a link's columns carry its alias. */
  lemma MainColumnsFirst(metadata: MetadataStore, query: Query)
    requires !query.ColumnSet.AllColumns
    requires QueryAttributes(metadata, query).Success?
    ensures var r := QueryAttributes(metadata, query).value;
      |r| >= |query.ColumnSet.Columns| && r[..|query.ColumnSet.Columns|] == query.ColumnSet.Columns
  {
    var cols := query.ColumnSet.Columns;
    var q := Qualify(cols, "");
    assert q == cols;
  }

  /** A link entity that lists its columns contributes them in order, each
      qualified by the link's alias. */
  lemma LinkColumnsQualified(metadata: MetadataStore, links: seq<LinkEntity>, link: LinkEntity)
    requires !link.Columns.AllColumns
    requires LinkAttributes(metadata, links).Success?
    ensures LinkAttributes(metadata, links + [link])
         == Success(LinkAttributes(metadata, links).value + Qualify(link.Columns.Columns, link.EntityAlias))
  {
    assert (links + [link])[..|links|] == links;
  }
}
