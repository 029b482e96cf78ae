/** Maximis.Toolkit.Xrm/ImportExport/CsvImportExportHelper.cs: the parts of
    CSV import and export that do not talk to the organization service.
    A lookup cell such as "[account] [5f3c…] Contoso" is split into its
    square-bracket tokens and the text left over, and the tokens are read
    as the Id, the entity type and the name of an EntityReference. */
module CsvImportExport {
  import opened Wrappers
  import opened Text
  import opened Xrm

  // ---------------------------------------------------------------- Labels

  const NoDisplayName := "[No Display Name]"

  /** GetLabel: the attribute's user-localized display label, or
      "[No Display Name]" when the attribute, its label or the label's text
      is missing or empty. */
  function GetLabel(attrMeta: Option<AttributeMeta>): (r: string)
    ensures attrMeta.None? || attrMeta.value.DisplayName.None? || attrMeta.value.DisplayName.value == [] ==> r == NoDisplayName
    ensures attrMeta.Some? && attrMeta.value.DisplayName.Some? && attrMeta.value.DisplayName.value != [] ==>
      r == attrMeta.value.DisplayName.value
    ensures r != []
  {
    if attrMeta.None? || attrMeta.value.DisplayName.None? || attrMeta.value.DisplayName.value == [] then NoDisplayName
    else attrMeta.value.DisplayName.value
  }

  // ------------------------------------------------------ Bracket matching

  /** The end of the match of `\[.*?\]` that starts with the '[' at i: one
      past the first ']' after it, provided no line feed comes first (the
      regular-expression dot does not match a line feed). */
  function CloseFrom(s: string, j: nat): (r: Option<nat>)
    requires j <= |s|
    ensures r.Some? ==> j < r.value <= |s| && s[r.value - 1] == ']'
    ensures r.Some? ==> forall k :: j <= k < r.value - 1 ==> s[k] != ']' && s[k] != '\n'
    ensures r.None? ==> forall k :: j <= k < |s| && s[k] == ']' ==> exists m :: j <= m < k && s[m] == '\n'
    decreases |s| - j
  {
    if j == |s| || s[j] == '\n' then None
    else if s[j] == ']' then Some(j + 1)
    else CloseFrom(s, j + 1)
  }

  /** A match of the bracket expression, s[start..end]. */
  datatype Span = Span(start: nat, end: nat)

  /** s[start..end] is '[', then text with no ']' and no line feed, then ']'. */
  predicate IsBracketMatch(s: string, sp: Span) {
    && sp.start + 2 <= sp.end <= |s|
    && s[sp.start] == '[' && s[sp.end - 1] == ']'
    && forall k :: sp.start < k < sp.end - 1 ==> s[k] != ']' && s[k] != '\n'
  }

  predicate AllMatches(s: string, ms: seq<Span>) {
    forall m {:trigger ms[m]} :: 0 <= m < |ms| ==> IsBracketMatch(s, ms[m])
  }

  /** Regex.Matches(s): the matches of `\[.*?\]` from position i on, left
      to right and without overlap. */
  function MatchesFrom(s: string, i: nat): (r: seq<Span>)
    requires i <= |s|
    ensures AllMatches(s, r)
    ensures forall m :: 0 <= m < |r| ==> i <= r[m].start
    ensures forall m, n :: 0 <= m < |r| && n == m + 1 && n < |r| ==> r[m].end <= r[n].start
    decreases |s| - i
  {
    if i == |s| then []
    else if s[i] == '[' then
      match CloseFrom(s, i + 1)
      case Some(end) => [Span(i, end)] + MatchesFrom(s, end)
      case None => MatchesFrom(s, i + 1)
    else MatchesFrom(s, i + 1)
  }

  function Matches(s: string): (r: seq<Span>)
    ensures AllMatches(s, r)
  {
    MatchesFrom(s, 0)
  }

  /** Text with no '[' has no match. */
  lemma {:induction false} NoBracketNoMatch(s: string, i: nat)
    requires i <= |s| && forall k :: i <= k < |s| ==> s[k] != '['
    ensures MatchesFrom(s, i) == []
    decreases |s| - i
  {
    if i < |s| {
      NoBracketNoMatch(s, i + 1);
    }
  }

  /** The text between the brackets of a match. */
  function Inner(s: string, sp: Span): (r: string)
    requires IsBracketMatch(s, sp)
    ensures |r| == sp.end - sp.start - 2
    ensures forall k :: 0 <= k < |r| ==> r[k] == s[sp.start + 1 + k]
  {
    s[sp.start + 1..sp.end - 1]
  }

  /** The inner texts of the matches. */
  function Inners(s: string, ms: seq<Span>): (r: seq<string>)
    requires AllMatches(s, ms)
    ensures |r| == |ms|
    ensures forall m :: 0 <= m < |ms| ==> r[m] == Inner(s, ms[m])
  {
    if ms == [] then [] else Inners(s, ms[..|ms| - 1]) + [Inner(s, ms[|ms| - 1])]
  }

  /** `val` after every match text was removed from it, in match order. */
  function Removed(s: string, val: string, ms: seq<Span>): string
    requires AllMatches(s, ms)
  {
    if ms == [] then val
    else
      var sp := ms[|ms| - 1];
      ReplaceAll(Removed(s, val, ms[..|ms| - 1]), s[sp.start..sp.end], "")
  }

  /** The values of a cell: the inner texts of its bracket matches, then
      the trimmed leftover when it is not blank. */
  function SquareBracketValues(val: string): seq<string> {
    var ms := Matches(val);
    WithLeftover(Inners(val, ms), Removed(val, val, ms))
  }

  function WithLeftover(values: seq<string>, leftover: string): seq<string> {
    values + if IsBlank(leftover) then [] else [Trim(leftover)]
  }

  /** GetValuesFromSquareBrackets. */
  method GetValuesFromSquareBrackets(val: string) returns (result: seq<string>)
    ensures result == SquareBracketValues(val)
  {
    var ms := Matches(val);
    var rest := val;
    result := [];
    var i := 0;
    while i < |ms|
      invariant 0 <= i <= |ms|
      invariant AllMatches(val, ms[..i])
      invariant result == Inners(val, ms[..i])
      invariant rest == Removed(val, val, ms[..i])
    {
      var sp := ms[i];
      Next(val, ms, i);
      result := result + [val[sp.start + 1..sp.end - 1]];
      rest := ReplaceAll(rest, val[sp.start..sp.end], "");
      i := i + 1;
    }
    assert ms[..i] == ms;
    result := AddLeftover(result, rest);
  }

  /** The trimmed leftover is added when it is not blank. */
  method AddLeftover(values: seq<string>, leftover: string) returns (r: seq<string>)
    ensures r == WithLeftover(values, leftover)
    ensures r[..|values|] == values
    ensures |r| == |values| + 1 <==> exists i :: 0 <= i < |leftover| && !IsWhiteSpace(leftover[i])
  {
    r := values;
    if !IsBlank(leftover) {
      r := r + [Trim(leftover)];
    }
  }

  /** One more match: its inner text is appended, its text removed. */
  lemma Next(s: string, ms: seq<Span>, i: nat)
    requires AllMatches(s, ms) && i < |ms|
    ensures AllMatches(s, ms[..i]) && AllMatches(s, ms[..i + 1])
    ensures Inners(s, ms[..i + 1]) == Inners(s, ms[..i]) + [s[ms[i].start + 1..ms[i].end - 1]]
    ensures Removed(s, s, ms[..i + 1]) == ReplaceAll(Removed(s, s, ms[..i]), s[ms[i].start..ms[i].end], "")
  {
    assert ms[..i + 1][..i] == ms[..i] && ms[..i + 1][i] == ms[i];
  }

  /** Each bracket value holds no ']' and no line feed. */
  lemma BracketValuesPlain(val: string)
    ensures forall m :: 0 <= m < |Matches(val)| ==>
      ']' !in SquareBracketValues(val)[m] && '\n' !in SquareBracketValues(val)[m]
  {
    var ms := Matches(val);
    var values := SquareBracketValues(val);
    assert forall m :: 0 <= m < |ms| ==> values[m] == Inner(val, ms[m]);
  }

  /** A cell without brackets is one trimmed value, or none when blank. */
  lemma PlainCell(val: string)
    requires '[' !in val
    ensures SquareBracketValues(val) == if IsBlank(val) then [] else [Trim(val)]
  {
    NoBracketNoMatch(val, 0);
  }

  /** "[a]b" gives "a" and then "b". */
  lemma BracketExample()
    ensures SquareBracketValues("[a]b") == ["a", "b"]
  {
    var s := "[a]b";
    var ms := [Span(0, 3)];
    ExampleMatches();
    ExampleRemoved();
    assert Inner(s, ms[0]) == "a";
    assert Inners(s, ms) == ["a"];
    ExampleLeftover();
  }

  lemma ExampleMatches()
    ensures Matches("[a]b") == [Span(0, 3)]
  {
    var s := "[a]b";
    assert CloseFrom(s, 1) == Some(3);
    assert MatchesFrom(s, 3) == [];
  }

  lemma ExampleRemoved()
    ensures AllMatches("[a]b", [Span(0, 3)])
    ensures Removed("[a]b", "[a]b", [Span(0, 3)]) == "b"
  {
    var s := "[a]b";
    var ms := [Span(0, 3)];
    ExampleMatches();
    assert ms[..0] == [];
    assert s[0..3] == "[a]" && s[..3] == "[a]" && s[3..] == "b";
    assert ReplaceAll("b", "[a]", "") == "b";
    assert ReplaceAll(s, "[a]", "") == "b";
  }

  lemma ExampleLeftover()
    ensures WithLeftover(["a"], "b") == ["a", "b"]
  {
    assert !IsBlank("b") by {
      assert !IsWhiteSpace("b"[0]);
    }
    assert LeadingWhiteSpace("b") == 0 && TrimmedLength("b") == 1;
    assert "b"[0..1] == "b";
    assert Trim("b") == "b";
  }

  // ------------------------------------------------------ Entity references

  /** The reference as it is filled in token by token; "" stands for a
      logical name that is still null. */
  datatype Partial = Partial(Id: Guid, LogicalName: string, Name: Option<string>)

  /** One token: while no Id is set, a token that parses as a Guid sets it;
      otherwise, while no type is set, a token naming an entity type sets
      the type to that entity's logical name; otherwise it is the name.
      `parseGuid` is Guid.TryParse; `metadata` is what GetEntityMetadata can
      retrieve, a name missing from it throwing (and being caught). */
  function Step(p: Partial, token: string, parseGuid: string -> Option<Guid>, metadata: MetadataStore): (q: Partial)
    ensures p.Id != EmptyGuid ==> q.Id == p.Id
    ensures p.LogicalName != [] ==> q.LogicalName == p.LogicalName
    ensures q.Name == p.Name || q.Name == Some(token)
  {
    if p.Id == EmptyGuid && parseGuid(token).Some? then p.(Id := parseGuid(token).value)
    else if p.LogicalName == [] && token in metadata then p.(LogicalName := metadata[token].LogicalName)
    else p.(Name := Some(token))
  }

  function Scan(tokens: seq<string>, parseGuid: string -> Option<Guid>, metadata: MetadataStore): Partial {
    if tokens == [] then Partial(EmptyGuid, [], None)
    else Step(Scan(tokens[..|tokens| - 1], parseGuid, metadata), tokens[|tokens| - 1], parseGuid, metadata)
  }

  /** A token that does not parse, or parses to Guid.Empty. */
  predicate NoGuid(token: string, parseGuid: string -> Option<Guid>) {
    parseGuid(token).None? || parseGuid(token).value == EmptyGuid
  }

  /** The Id is the first non-empty Guid among the tokens, and stays empty
      when there is none. */
  lemma {:induction false} ScanId(tokens: seq<string>, parseGuid: string -> Option<Guid>, metadata: MetadataStore)
    ensures var id := Scan(tokens, parseGuid, metadata).Id;
      && (id == EmptyGuid <==> forall i :: 0 <= i < |tokens| ==> NoGuid(tokens[i], parseGuid))
      && (id != EmptyGuid ==> exists i :: 0 <= i < |tokens| && parseGuid(tokens[i]) == Some(id)
                                 && forall j :: 0 <= j < i ==> NoGuid(tokens[j], parseGuid))
  {
    if tokens != [] {
      var init := tokens[..|tokens| - 1];
      ScanId(init, parseGuid, metadata);
      assert forall i :: 0 <= i < |init| ==> init[i] == tokens[i];
      var before := Scan(init, parseGuid, metadata).Id;
      var id := Scan(tokens, parseGuid, metadata).Id;
      if before != EmptyGuid {
        var i :| 0 <= i < |init| && parseGuid(init[i]) == Some(before) && forall j :: 0 <= j < i ==> NoGuid(init[j], parseGuid);
        assert parseGuid(tokens[i]) == Some(id);
      } else if id != EmptyGuid {
        assert parseGuid(tokens[|tokens| - 1]) == Some(id);
      }
    }
  }

  /** A type, once set, is the logical name of an entity the metadata
      knows under one of the tokens; a name, once set, is one of the tokens. */
  lemma {:induction false} ScanOrigins(tokens: seq<string>, parseGuid: string -> Option<Guid>, metadata: MetadataStore)
    ensures var p := Scan(tokens, parseGuid, metadata);
      && (p.LogicalName != [] ==> exists t :: t in tokens && t in metadata && metadata[t].LogicalName == p.LogicalName)
      && (p.Name.Some? ==> p.Name.value in tokens)
  {
    if tokens != [] {
      var init := tokens[..|tokens| - 1];
      ScanOrigins(init, parseGuid, metadata);
      assert forall t :: t in init ==> t in tokens;
    }
  }

  /** The token at `i` is taken as the Id: it parses as a Guid and no token
      before it gave a non-empty one. */
  predicate TakenAsId(tokens: seq<string>, i: nat, parseGuid: string -> Option<Guid>)
    requires i < |tokens|
  {
    parseGuid(tokens[i]).Some? && forall j :: 0 <= j < i ==> NoGuid(tokens[j], parseGuid)
  }

  /** The token at `i` is offered to the metadata: it was not taken as the
      Id and names an entity type. */
  predicate TypeCandidate(tokens: seq<string>, i: nat, parseGuid: string -> Option<Guid>, metadata: MetadataStore)
    requires i < |tokens|
  {
    !TakenAsId(tokens, i, parseGuid) && tokens[i] in metadata
  }

  /** The token at `i` sets the type: a candidate while no earlier candidate
      gave a non-empty logical name. */
  predicate TakenAsType(tokens: seq<string>, i: nat, parseGuid: string -> Option<Guid>, metadata: MetadataStore)
    requires i < |tokens|
  {
    && TypeCandidate(tokens, i, parseGuid, metadata)
    && forall j :: 0 <= j < i && TypeCandidate(tokens, j, parseGuid, metadata) ==> metadata[tokens[j]].LogicalName == []
  }

  /** The token at `i` is assigned to the name: it set neither the Id nor
      the type. */
  predicate TakenAsName(tokens: seq<string>, i: nat, parseGuid: string -> Option<Guid>, metadata: MetadataStore)
    requires i < |tokens|
  {
    !TakenAsId(tokens, i, parseGuid) && !TakenAsType(tokens, i, parseGuid, metadata)
  }

  /** Each role of a token depends only on the tokens up to it. */
  lemma RolesOfPrefix(tokens: seq<string>, n: nat, parseGuid: string -> Option<Guid>, metadata: MetadataStore)
    requires n <= |tokens|
    ensures forall i :: 0 <= i < n ==>
      && (TakenAsId(tokens[..n], i, parseGuid) <==> TakenAsId(tokens, i, parseGuid))
      && (TypeCandidate(tokens[..n], i, parseGuid, metadata) <==> TypeCandidate(tokens, i, parseGuid, metadata))
  {
    var init := tokens[..n];
    forall i | 0 <= i < n
      ensures TakenAsId(init, i, parseGuid) <==> TakenAsId(tokens, i, parseGuid)
    {
      assert forall j :: 0 <= j <= i ==> init[j] == tokens[j];
    }
  }

  /** The type is the logical name given by the first candidate token with
      a non-empty one, and stays unset when no candidate gives one. */
  lemma {:induction false} ScanType(tokens: seq<string>, parseGuid: string -> Option<Guid>, metadata: MetadataStore)
    ensures var p := Scan(tokens, parseGuid, metadata);
      && (p.LogicalName == [] <==>
            forall i :: 0 <= i < |tokens| && TypeCandidate(tokens, i, parseGuid, metadata) ==> metadata[tokens[i]].LogicalName == [])
      && (p.LogicalName != [] ==>
            exists i :: 0 <= i < |tokens| && TakenAsType(tokens, i, parseGuid, metadata) && metadata[tokens[i]].LogicalName == p.LogicalName)
  {
    if tokens != [] {
      var n := |tokens| - 1;
      var init := tokens[..n];
      ScanType(init, parseGuid, metadata);
      ScanId(init, parseGuid, metadata);
      RolesOfPrefix(tokens, n, parseGuid, metadata);
      var before := Scan(init, parseGuid, metadata);
      assert TakenAsId(tokens, n, parseGuid) <==> before.Id == EmptyGuid && parseGuid(tokens[n]).Some? by {
        assert forall j :: 0 <= j < n ==> init[j] == tokens[j];
      }
      var p := Scan(tokens, parseGuid, metadata);
      if before.LogicalName != [] {
        var i :| 0 <= i < n && TakenAsType(init, i, parseGuid, metadata) && metadata[init[i]].LogicalName == before.LogicalName;
        assert init[i] == tokens[i];
        assert TakenAsType(tokens, i, parseGuid, metadata);
      } else if p.LogicalName != [] {
        assert TakenAsType(tokens, n, parseGuid, metadata);
      }
    }
  }

  /** The name is the last token that set neither the Id nor the type, and
      stays unset when there is none. */
  lemma {:induction false} ScanName(tokens: seq<string>, parseGuid: string -> Option<Guid>, metadata: MetadataStore)
    ensures var p := Scan(tokens, parseGuid, metadata);
      && (p.Name.None? <==> forall i :: 0 <= i < |tokens| ==> !TakenAsName(tokens, i, parseGuid, metadata))
      && (p.Name.Some? ==> exists i :: 0 <= i < |tokens| && TakenAsName(tokens, i, parseGuid, metadata) && p.Name.value == tokens[i]
                             && forall j :: i < j < |tokens| ==> !TakenAsName(tokens, j, parseGuid, metadata))
  {
    if tokens != [] {
      var n := |tokens| - 1;
      var init := tokens[..n];
      ScanName(init, parseGuid, metadata);
      ScanType(init, parseGuid, metadata);
      ScanId(init, parseGuid, metadata);
      RolesOfPrefix(tokens, n, parseGuid, metadata);
      var before := Scan(init, parseGuid, metadata);
      assert forall j :: 0 <= j < n ==> init[j] == tokens[j];
      assert forall i :: 0 <= i < n ==> (TakenAsType(init, i, parseGuid, metadata) <==> TakenAsType(tokens, i, parseGuid, metadata));
      assert forall i :: 0 <= i < n ==> (TakenAsName(init, i, parseGuid, metadata) <==> TakenAsName(tokens, i, parseGuid, metadata));
      var p := Scan(tokens, parseGuid, metadata);
      if TakenAsName(tokens, n, parseGuid, metadata) {
        assert !(before.Id == EmptyGuid && parseGuid(tokens[n]).Some?) && !(before.LogicalName == [] && tokens[n] in metadata);
        assert p.Name == Some(tokens[n]);
      } else {
        assert p.Name == before.Name;
        if before.Name.Some? {
          var i :| 0 <= i < n && TakenAsName(init, i, parseGuid, metadata) && before.Name.value == init[i]
                   && forall j :: i < j < n ==> !TakenAsName(init, j, parseGuid, metadata);
          assert TakenAsName(tokens, i, parseGuid, metadata);
        }
      }
    }
  }

  /** GetEntityReference: None when no token gives an Id, or when no token
      gives a type and the lookup does not have exactly one target. */
  method GetEntityReference(val: string, lookupTargets: seq<string>, parseGuid: string -> Option<Guid>, metadata: MetadataStore)
    returns (r: Option<EntityReference>)
    ensures var p := Scan(SquareBracketValues(val), parseGuid, metadata);
      && (r.None? <==> p.Id == EmptyGuid || (p.LogicalName == [] && |lookupTargets| != 1))
      && (r.Some? ==> r.value.Id == p.Id && r.value.Name == p.Name)
      && (r.Some? && p.LogicalName != [] ==> r.value.LogicalName == p.LogicalName)
      && (r.Some? && p.LogicalName == [] ==> |lookupTargets| == 1 && r.value.LogicalName == lookupTargets[0])
  {
    var tokens := GetValuesFromSquareBrackets(val);
    var result := Partial(EmptyGuid, [], None);
    var i := 0;
    while i < |tokens|
      invariant 0 <= i <= |tokens|
      invariant result == Scan(tokens[..i], parseGuid, metadata)
    {
      ghost var next := Step(result, tokens[i], parseGuid, metadata);
      assert tokens[..i + 1][..i] == tokens[..i];
      assert next == Scan(tokens[..i + 1], parseGuid, metadata);
      var s := tokens[i];
      if result.Id == EmptyGuid && parseGuid(s).Some? {
        result := result.(Id := parseGuid(s).value);
      } else if result.LogicalName == [] && s in metadata {
        result := result.(LogicalName := metadata[s].LogicalName);
      } else {
        result := result.(Name := Some(s));
      }
      assert result == next;
      i := i + 1;
    }
    assert tokens[..i] == tokens;
    assert result == Scan(SquareBracketValues(val), parseGuid, metadata);
    ghost var p := result;
    if result.Id == EmptyGuid {
      return None;
    }
    if result.LogicalName == [] {
      if |lookupTargets| == 1 {
        result := result.(LogicalName := lookupTargets[0]);
        assert result.LogicalName == lookupTargets[0] && result.Id == p.Id && result.Name == p.Name;
      } else {
        return None;
      }
    }
    return Some(EntityReference(result.LogicalName, result.Id, result.Name));
  }
}
