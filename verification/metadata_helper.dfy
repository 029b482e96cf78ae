/** Maximis.Toolkit.Xrm/MetadataHelper.cs and DisplayStringOptions.cs: the
    lookups over already-retrieved metadata (option labels and values,
    attribute and relationship metadata) and the Boolean and default cases
    of GetAttributeValueAsDisplayString. Retrieving metadata from the
    organization service, its cache, and the culture-dependent date, money,
    lookup and option-set formats are not part of this model. */
module MetadataHelper {
  import opened Wrappers
  import opened Text
  import opened Xrm

  // ----------------------------------------------------------- Option sets

  /** ConvertOptionSetValueToString: the label of the one option with the
      value, None when no option has it. A second option with the value
      makes SingleOrDefault throw; a matching option without a localized
      label throws NullReferenceException. */
  function OptionValueToLabel(attributeMetadata: AttributeMeta, optionValue: int): (r: Result<Option<string>>)
    ensures r == Success(None) <==> forall i :: 0 <= i < |attributeMetadata.Options| ==> attributeMetadata.Options[i].Value != optionValue
    ensures r.Success? && r.value.Some? ==>
      exists i :: 0 <= i < |attributeMetadata.Options| && attributeMetadata.Options[i] == OptionMeta(optionValue, r.value)
    ensures (exists i, j :: 0 <= i < j < |attributeMetadata.Options|
               && attributeMetadata.Options[i].Value == optionValue && attributeMetadata.Options[j].Value == optionValue)
            ==> r.Failure?
  {
    match SingleWhere(attributeMetadata.Options, HasValue(optionValue))
    case NoMatch => Success(None)
    case One(o) => if o.Label.None? then Failure(NullReference) else Success(Some(o.Label.value))
    case Many => Failure(SequenceHasMoreThanOneMatch)
  }

  /** The test SingleOrDefault applies when looking an option up by value. */
  function HasValue(optionValue: int): OptionMeta -> bool {
    (o: OptionMeta) => o.Value == optionValue
  }

  /** Every option carries a localized label. */
  predicate AllLabelled(options: seq<OptionMeta>) {
    forall i :: 0 <= i < |options| ==> options[i].Label.Some?
  }

  /** Label comparison: both sides upper-cased. */
  predicate LabelMatches(o: OptionMeta, labelText: string) {
    o.Label.Some? && ToUpper(o.Label.value) == ToUpper(labelText)
  }

  /** ConvertStringToOptionSetValue: the value of the one option whose label
      matches ignoring case, None when none does. SingleOrDefault on the
      .NET Framework applies the test to every option, so an option without
      a label throws NullReferenceException wherever it is. */
  function LabelToOptionValue(attributeMetadata: AttributeMeta, labelText: string): (r: Result<Option<int>>)
    ensures !AllLabelled(attributeMetadata.Options) ==> r.Failure?
    ensures r == Success(None) <==>
      AllLabelled(attributeMetadata.Options)
      && forall i :: 0 <= i < |attributeMetadata.Options| ==> !LabelMatches(attributeMetadata.Options[i], labelText)
    ensures r.Success? && r.value.Some? ==>
      exists i :: 0 <= i < |attributeMetadata.Options|
        && LabelMatches(attributeMetadata.Options[i], labelText) && attributeMetadata.Options[i].Value == r.value.value
  {
    if !AllLabelled(attributeMetadata.Options) then Failure(NullReference)
    else
      match SingleWhere(attributeMetadata.Options, LabelMatching(labelText))
      case NoMatch => Success(None)
      case One(o) => Success(Some(o.Value))
      case Many => Failure(SequenceHasMoreThanOneMatch)
  }

  /** The test SingleOrDefault applies when looking an option up by label. */
  function LabelMatching(labelText: string): OptionMeta -> bool {
    (o: OptionMeta) => LabelMatches(o, labelText)
  }

  /** The one option with a value gives its label, or throws when it has
      none. */
  lemma OptionValueFoundAt(attributeMetadata: AttributeMeta, k: nat)
    requires k < |attributeMetadata.Options|
    requires forall i :: 0 <= i < |attributeMetadata.Options| && attributeMetadata.Options[i].Value == attributeMetadata.Options[k].Value ==> i == k
    ensures var o := attributeMetadata.Options[k];
      && (o.Label.Some? ==> OptionValueToLabel(attributeMetadata, o.Value) == Success(Some(o.Label.value)))
      && (o.Label.None? ==> OptionValueToLabel(attributeMetadata, o.Value) == Failure(NullReference))
  {
    SingleWhereUnique(attributeMetadata.Options, HasValue(attributeMetadata.Options[k].Value), k);
  }

  /** Two options with the value make the conversion throw SingleOrDefault's
      error. */
  lemma OptionValueDuplicated(attributeMetadata: AttributeMeta, optionValue: int)
    requires MatchesTwice(attributeMetadata.Options, HasValue(optionValue))
    ensures OptionValueToLabel(attributeMetadata, optionValue) == Failure(SequenceHasMoreThanOneMatch)
  {
    SingleWhereCases(attributeMetadata.Options, HasValue(optionValue));
  }

  /** With every option labelled, the one option whose label matches gives
      its value. */
  lemma LabelFoundAt(attributeMetadata: AttributeMeta, labelText: string, k: nat)
    requires AllLabelled(attributeMetadata.Options)
    requires k < |attributeMetadata.Options| && LabelMatches(attributeMetadata.Options[k], labelText)
    requires forall i :: 0 <= i < |attributeMetadata.Options| && LabelMatches(attributeMetadata.Options[i], labelText) ==> i == k
    ensures LabelToOptionValue(attributeMetadata, labelText) == Success(Some(attributeMetadata.Options[k].Value))
  {
    SingleWhereUnique(attributeMetadata.Options, LabelMatching(labelText), k);
  }

  /** With every option labelled, two options whose labels match make the
      conversion throw SingleOrDefault's error. */
  lemma LabelDuplicated(attributeMetadata: AttributeMeta, labelText: string)
    requires AllLabelled(attributeMetadata.Options)
    requires MatchesTwice(attributeMetadata.Options, LabelMatching(labelText))
    ensures LabelToOptionValue(attributeMetadata, labelText) == Failure(SequenceHasMoreThanOneMatch)
  {
    SingleWhereCases(attributeMetadata.Options, LabelMatching(labelText));
  }

  /** Option values, and labels up to case, are unique. */
  predicate WellFormedOptions(options: seq<OptionMeta>) {
    && AllLabelled(options)
    && (forall i, j :: 0 <= i < |options| && 0 <= j < |options| && options[i].Value == options[j].Value ==> i == j)
    && (forall i, j :: 0 <= i < |options| && 0 <= j < |options| && LabelMatches(options[i], options[j].Label.value) ==> i == j)
  }

  /** With unique values and labels, an option's label leads to its value
      and its value back to its label. */
  lemma OptionRoundTrip(attributeMetadata: AttributeMeta, k: nat)
    requires WellFormedOptions(attributeMetadata.Options) && k < |attributeMetadata.Options|
    ensures var o := attributeMetadata.Options[k];
      && LabelToOptionValue(attributeMetadata, o.Label.value) == Success(Some(o.Value))
      && OptionValueToLabel(attributeMetadata, o.Value) == Success(o.Label)
  {
    var options := attributeMetadata.Options;
    var o := options[k];
    SingleWhereUnique(options, LabelMatching(o.Label.value), k);
    SingleWhereUnique(options, HasValue(o.Value), k);
  }

  /** Option values are unique. */
  predicate UniqueValues(options: seq<OptionMeta>) {
    forall i, j :: 0 <= i < |options| && 0 <= j < |options| && options[i].Value == options[j].Value ==> i == j
  }

  /** OrderBy is stable: option i comes before option j when its value is
      smaller, or equal with a smaller index. */
  predicate InValueOrder(options: seq<OptionMeta>, i: nat, j: nat)
    requires i < |options| && j < |options|
  {
    options[i].Value < options[j].Value || (options[i].Value == options[j].Value && i < j)
  }

  /** ToDictionary throws at option j: reading its label throws when it has
      none, and otherwise Add throws when an option before it in value order
      had the same value, that is, one with a smaller index. */
  predicate FailsAt(options: seq<OptionMeta>, j: nat)
    requires j < |options|
  {
    options[j].Label.None? || exists i :: 0 <= i < j && options[i].Value == options[j].Value
  }

  /** Option j is the first one in value order at which ToDictionary throws. */
  predicate FirstFailureAt(options: seq<OptionMeta>, j: nat) {
    && j < |options| && FailsAt(options, j)
    && forall i :: 0 <= i < |options| && i != j && FailsAt(options, i) ==> InValueOrder(options, j, i)
  }

  /** The first of options[..n] in value order at which ToDictionary throws. */
  function FirstFailing(options: seq<OptionMeta>, n: nat): (r: Option<nat>)
    requires n <= |options|
    ensures r.None? <==> forall j :: 0 <= j < n ==> !FailsAt(options, j)
    ensures r.Some? ==>
      && r.value < n && FailsAt(options, r.value)
      && forall i :: 0 <= i < n && i != r.value && FailsAt(options, i) ==> InValueOrder(options, r.value, i)
  {
    if n == 0 then None
    else
      var best := FirstFailing(options, n - 1);
      if FailsAt(options, n - 1) && (best.None? || options[n - 1].Value < options[best.value].Value) then Some(n - 1)
      else best
  }

  /** GetOptionSetLookup: each option value mapped to its label. The options
      are taken in stable value order, and the first one that has no label
      (reading it throws NullReferenceException) or repeats an earlier value
      (Dictionary.Add throws) decides the failure; the label is read before
      the key is added. */
  function GetOptionSetLookup(attributeMetadata: AttributeMeta): (r: Result<map<int, string>>)
    ensures r.Success? <==> UniqueValues(attributeMetadata.Options) && AllLabelled(attributeMetadata.Options)
    ensures r.Success? ==>
      && r.value.Keys == (set i | 0 <= i < |attributeMetadata.Options| :: attributeMetadata.Options[i].Value)
      && forall i :: 0 <= i < |attributeMetadata.Options| ==>
           Some(r.value[attributeMetadata.Options[i].Value]) == attributeMetadata.Options[i].Label
    ensures forall j: nat :: FirstFailureAt(attributeMetadata.Options, j) ==>
      r == Failure(if attributeMetadata.Options[j].Label.None? then NullReference else DuplicateKey)
  {
    var options := attributeMetadata.Options;
    match FirstFailing(options, |options|)
    case Some(j) =>
      assert FirstFailureAt(options, j);
      LookupFailureUnique(options, j);
      NoFailureMeansWellFormed(options);
      if options[j].Label.None? then Failure(NullReference) else Failure(DuplicateKey)
    case None =>
      NoFailureMeansWellFormed(options);
      Success(map i | 0 <= i < |options| :: options[i].Value := options[i].Label.value)
  }

  /** Only one option is first in value order. */
  lemma LookupFailureUnique(options: seq<OptionMeta>, j: nat)
    requires FirstFailureAt(options, j)
    ensures forall k: nat :: FirstFailureAt(options, k) ==> k == j
  {
    forall k: nat | FirstFailureAt(options, k)
      ensures k == j
    {
    }
  }

  /** ToDictionary throws nowhere exactly when values are unique and every
      option is labelled. */
  lemma NoFailureMeansWellFormed(options: seq<OptionMeta>)
    ensures (forall j :: 0 <= j < |options| ==> !FailsAt(options, j)) <==> UniqueValues(options) && AllLabelled(options)
  {
    if UniqueValues(options) && AllLabelled(options) {
      forall j | 0 <= j < |options|
        ensures !FailsAt(options, j)
      {
      }
    } else if !AllLabelled(options) {
      var k :| 0 <= k < |options| && options[k].Label.None?;
      assert FailsAt(options, k);
    } else {
      var i, j :| 0 <= i < |options| && 0 <= j < |options| && options[i].Value == options[j].Value && i != j;
      if i < j {
        assert FailsAt(options, j);
      } else {
        assert FailsAt(options, i);
      }
    }
  }

  /** An unlabelled option that comes first in value order throws
      NullReferenceException even when a later option repeats its value. */
  lemma LookupLabelReadFirst()
    ensures GetOptionSetLookup(AttributeMeta("a", None, [OptionMeta(1, None), OptionMeta(1, Some("b"))])) == Failure(NullReference)
    ensures GetOptionSetLookup(AttributeMeta("a", None, [OptionMeta(2, Some("a")), OptionMeta(2, Some("b")), OptionMeta(1, None)])) == Failure(NullReference)
  {
    var o1 := [OptionMeta(1, None), OptionMeta(1, Some("b"))];
    assert FirstFailureAt(o1, 0);
    var o2 := [OptionMeta(2, Some("a")), OptionMeta(2, Some("b")), OptionMeta(1, None)];
    assert FirstFailureAt(o2, 2);
  }

  /** The lookup and value-to-label conversion agree. */
  lemma LookupAgreesWithConversion(attributeMetadata: AttributeMeta, optionValue: int)
    requires GetOptionSetLookup(attributeMetadata).Success?
    ensures var lookup := GetOptionSetLookup(attributeMetadata).value;
      OptionValueToLabel(attributeMetadata, optionValue)
        == Success(if optionValue in lookup then Some(lookup[optionValue]) else None)
  {
    var options := attributeMetadata.Options;
    var lookup := GetOptionSetLookup(attributeMetadata).value;
    if optionValue in lookup {
      var k :| 0 <= k < |options| && options[k].Value == optionValue;
      ValueFound(attributeMetadata, k);
      assert Some(lookup[optionValue]) == options[k].Label;
    } else {
      assert forall i :: 0 <= i < |options| ==> options[i].Value in lookup;
      ValueNotFound(attributeMetadata, optionValue);
    }
  }

  lemma ValueFound(attributeMetadata: AttributeMeta, k: nat)
    requires k < |attributeMetadata.Options| && UniqueValues(attributeMetadata.Options) && AllLabelled(attributeMetadata.Options)
    ensures var o := attributeMetadata.Options[k];
      OptionValueToLabel(attributeMetadata, o.Value) == Success(Some(o.Label.value))
  {
    SingleWhereUnique(attributeMetadata.Options, HasValue(attributeMetadata.Options[k].Value), k);
  }

  lemma ValueNotFound(attributeMetadata: AttributeMeta, optionValue: int)
    requires forall i :: 0 <= i < |attributeMetadata.Options| ==> attributeMetadata.Options[i].Value != optionValue
    ensures OptionValueToLabel(attributeMetadata, optionValue) == Success(None)
  {
    assert SingleWhere(attributeMetadata.Options, HasValue(optionValue)) == NoMatch;
  }

  // ------------------------------------------------------------ Attributes

  /** GetAttributeMetadata: the one attribute with the logical name, None
      when there is none; a repeated name throws. */
  function GetAttributeMetadata(entityMetadata: EntityMetadata, attributeName: string): (r: Result<Option<AttributeMeta>>)
    ensures r == Success(None) <==> forall i :: 0 <= i < |entityMetadata.Attributes| ==> entityMetadata.Attributes[i].LogicalName != attributeName
    ensures r.Success? && r.value.Some? ==> r.value.value in entityMetadata.Attributes && r.value.value.LogicalName == attributeName
    ensures r.Failure? <==> exists i, j :: (0 <= i < j < |entityMetadata.Attributes|
      && entityMetadata.Attributes[i].LogicalName == attributeName && entityMetadata.Attributes[j].LogicalName == attributeName)
  {
    match SingleWhere(entityMetadata.Attributes, (a: AttributeMeta) => a.LogicalName == attributeName)
    case NoMatch => Success(None)
    case One(a) => Success(Some(a))
    case Many => Failure(SequenceHasMoreThanOneMatch)
  }

  // --------------------------------------------------------- Relationships

  function FilterOneToMany(rels: seq<OneToManyMeta>, p: OneToManyMeta -> bool): (r: seq<Relationship>)
    ensures forall x :: x in r <==> x.OneToMany? && x.oneToMany in rels && p(x.oneToMany)
  {
    if rels == [] then []
    else (if p(rels[0]) then [OneToMany(rels[0])] else []) + FilterOneToMany(rels[1..], p)
  }

  function FilterManyToMany(rels: seq<ManyToManyMeta>, p: ManyToManyMeta -> bool): (r: seq<Relationship>)
    ensures forall x :: x in r <==> x.ManyToMany? && x.manyToMany in rels && p(x.manyToMany)
  {
    if rels == [] then []
    else (if p(rels[0]) then [ManyToMany(rels[0])] else []) + FilterManyToMany(rels[1..], p)
  }

  /** The six groups GetAllRelationships adds for one related type, in
      order: N:N with this entity first, N:N with this entity second, N:1
      referenced by this entity, N:1 referencing it, 1:N referenced by it,
      1:N referencing it. */
  function RelationshipsWith(em: EntityMetadata, relatedType: string): seq<Relationship> {
    var name := em.LogicalName;
    FilterManyToMany(em.ManyToManyRelationships, (q: ManyToManyMeta) => q.Entity1LogicalName == name && q.Entity2LogicalName == relatedType)
    + FilterManyToMany(em.ManyToManyRelationships, (q: ManyToManyMeta) => q.Entity2LogicalName == name && q.Entity1LogicalName == relatedType)
    + FilterOneToMany(em.ManyToOneRelationships, (q: OneToManyMeta) => q.ReferencedEntity == name && q.ReferencingEntity == relatedType)
    + FilterOneToMany(em.ManyToOneRelationships, (q: OneToManyMeta) => q.ReferencingEntity == name && q.ReferencedEntity == relatedType)
    + FilterOneToMany(em.OneToManyRelationships, (q: OneToManyMeta) => q.ReferencedEntity == name && q.ReferencingEntity == relatedType)
    + FilterOneToMany(em.OneToManyRelationships, (q: OneToManyMeta) => q.ReferencingEntity == name && q.ReferencedEntity == relatedType)
  }

  /** The relationship joins the entity `name` and `relatedType`, either way
      round. */
  predicate Joins(rel: Relationship, name: string, relatedType: string) {
    match rel
    case ManyToMany(m) =>
      (m.Entity1LogicalName == name && m.Entity2LogicalName == relatedType)
      || (m.Entity2LogicalName == name && m.Entity1LogicalName == relatedType)
    case OneToMany(o) =>
      (o.ReferencedEntity == name && o.ReferencingEntity == relatedType)
      || (o.ReferencingEntity == name && o.ReferencedEntity == relatedType)
  }

  /** The relationship is one of the entity's own. */
  predicate OwnRelationship(em: EntityMetadata, rel: Relationship) {
    match rel
    case ManyToMany(m) => m in em.ManyToManyRelationships
    case OneToMany(o) => o in em.ManyToOneRelationships || o in em.OneToManyRelationships
  }

  /** GetAllRelationships: the groups of each related type in turn. */
  function AllRelationships(em: EntityMetadata, relatedTypes: seq<string>): seq<Relationship> {
    if relatedTypes == [] then [] else AllRelationships(em, relatedTypes[..|relatedTypes| - 1]) + RelationshipsWith(em, relatedTypes[|relatedTypes| - 1])
  }

  method GetAllRelationships(entityMetadata: EntityMetadata, relatedTypes: seq<string>) returns (relationships: seq<Relationship>)
    ensures relationships == AllRelationships(entityMetadata, relatedTypes)
    ensures forall rel :: rel in relationships <==>
      OwnRelationship(entityMetadata, rel) && exists t :: t in relatedTypes && Joins(rel, entityMetadata.LogicalName, t)
  {
    relationships := [];
    var i := 0;
    while i < |relatedTypes|
      invariant 0 <= i <= |relatedTypes|
      invariant relationships == AllRelationships(entityMetadata, relatedTypes[..i])
    {
      assert relatedTypes[..i + 1][..i] == relatedTypes[..i];
      relationships := relationships + RelationshipsWith(entityMetadata, relatedTypes[i]);
      i := i + 1;
    }
    assert relatedTypes[..i] == relatedTypes;
    AllRelationshipsMembers(entityMetadata, relatedTypes);
  }

  /** Exactly the entity's relationships that join it with a requested type
      are kept. */
  lemma {:induction false} AllRelationshipsMembers(em: EntityMetadata, relatedTypes: seq<string>)
    ensures forall rel :: rel in AllRelationships(em, relatedTypes) <==>
      OwnRelationship(em, rel) && exists t :: t in relatedTypes && Joins(rel, em.LogicalName, t)
  {
    if relatedTypes != [] {
      var init := relatedTypes[..|relatedTypes| - 1];
      var last := relatedTypes[|relatedTypes| - 1];
      AllRelationshipsMembers(em, init);
      forall rel ensures rel in RelationshipsWith(em, last) <==> OwnRelationship(em, rel) && Joins(rel, em.LogicalName, last) {
      }
      forall t | t in relatedTypes ensures t in init || t == last {
        var k :| 0 <= k < |relatedTypes| && relatedTypes[k] == t;
        if k < |relatedTypes| - 1 {
          assert init[k] == t;
        }
      }
      assert forall t :: t in init ==> t in relatedTypes;
    }
  }

  /** The test SingleOrDefault applies to 1:N and N:1 relationships. */
  function OneToManyNamed(relName: string): OneToManyMeta -> bool {
    (q: OneToManyMeta) => q.SchemaName == relName
  }

  /** The test SingleOrDefault applies to N:N relationships. */
  function ManyToManyNamed(relName: string): ManyToManyMeta -> bool {
    (q: ManyToManyMeta) => q.SchemaName == relName
  }

  /** GetRelationshipMetadata: the relationship with the schema name among
      the 1:N, then the N:1, then the N:N relationships; a group with two of
      that name throws. The first group holding the name decides. */
  function GetRelationshipMetadata(em: EntityMetadata, relName: string): (r: Result<Option<Relationship>>)
    ensures r == Success(None) <==>
      && (forall i :: 0 <= i < |em.OneToManyRelationships| ==> em.OneToManyRelationships[i].SchemaName != relName)
      && (forall i :: 0 <= i < |em.ManyToOneRelationships| ==> em.ManyToOneRelationships[i].SchemaName != relName)
      && (forall i :: 0 <= i < |em.ManyToManyRelationships| ==> em.ManyToManyRelationships[i].SchemaName != relName)
    ensures r.Success? && r.value.Some? ==> OwnRelationship(em, r.value.value)
    ensures r.Success? && r.value.Some? && r.value.value.ManyToMany? ==> r.value.value.manyToMany.SchemaName == relName
    ensures r.Success? && r.value.Some? && r.value.value.OneToMany? ==> r.value.value.oneToMany.SchemaName == relName
    ensures r.Success? && (exists i :: 0 <= i < |em.OneToManyRelationships| && em.OneToManyRelationships[i].SchemaName == relName) ==> r.value.Some? && r.value.value.OneToMany? && r.value.value.oneToMany in em.OneToManyRelationships
    // it throws exactly when the first group holding the name holds it twice
    ensures r.Failure? <==>
      || MatchesTwice(em.OneToManyRelationships, OneToManyNamed(relName))
      || (!Matches(em.OneToManyRelationships, OneToManyNamed(relName)) && MatchesTwice(em.ManyToOneRelationships, OneToManyNamed(relName)))
      || (!Matches(em.OneToManyRelationships, OneToManyNamed(relName)) && !Matches(em.ManyToOneRelationships, OneToManyNamed(relName))
          && MatchesTwice(em.ManyToManyRelationships, ManyToManyNamed(relName)))
    // the one match of the first group holding the name is the result
    ensures Matches(em.OneToManyRelationships, OneToManyNamed(relName)) && !MatchesTwice(em.OneToManyRelationships, OneToManyNamed(relName)) ==>
      r.Success? && r.value.Some? && r.value.value.OneToMany? && r.value.value.oneToMany in em.OneToManyRelationships
    ensures (&& !Matches(em.OneToManyRelationships, OneToManyNamed(relName))
             && Matches(em.ManyToOneRelationships, OneToManyNamed(relName))
             && !MatchesTwice(em.ManyToOneRelationships, OneToManyNamed(relName))) ==>
      r.Success? && r.value.Some? && r.value.value.OneToMany? && r.value.value.oneToMany in em.ManyToOneRelationships
    ensures (&& !Matches(em.OneToManyRelationships, OneToManyNamed(relName))
             && !Matches(em.ManyToOneRelationships, OneToManyNamed(relName))
             && Matches(em.ManyToManyRelationships, ManyToManyNamed(relName))
             && !MatchesTwice(em.ManyToManyRelationships, ManyToManyNamed(relName))) ==>
      r.Success? && r.value.Some? && r.value.value.ManyToMany? && r.value.value.manyToMany in em.ManyToManyRelationships
  {
    SingleWhereCases(em.OneToManyRelationships, OneToManyNamed(relName));
    SingleWhereCases(em.ManyToOneRelationships, OneToManyNamed(relName));
    SingleWhereCases(em.ManyToManyRelationships, ManyToManyNamed(relName));
    match SingleWhere(em.OneToManyRelationships, OneToManyNamed(relName))
    case Many => Failure(SequenceHasMoreThanOneMatch)
    case One(q) => Success(Some(OneToMany(q)))
    case NoMatch =>
      match SingleWhere(em.ManyToOneRelationships, OneToManyNamed(relName))
      case Many => Failure(SequenceHasMoreThanOneMatch)
      case One(q) => Success(Some(OneToMany(q)))
      case NoMatch =>
        match SingleWhere(em.ManyToManyRelationships, ManyToManyNamed(relName))
        case Many => Failure(SequenceHasMoreThanOneMatch)
        case One(q) => Success(Some(ManyToMany(q)))
        case NoMatch => Success(None)
  }

  // --------------------------------------------------------- Display text

  /** DisplayStringOptions. The BoolTrue and BoolFalse setters assign to
      their own parameter, so the texts stay "true" and "false". The date,
      lookup and option-set formats are not part of this model. */
  class DisplayStringOptions {
    var boolFalse: string
    var boolTrue: string
    var CleanWhiteSpace: bool

    predicate Valid()
      reads this
    {
      boolFalse == "false" && boolTrue == "true"
    }

    constructor ()
      ensures Valid() && !CleanWhiteSpace
    {
      boolFalse := "false";
      boolTrue := "true";
      CleanWhiteSpace := false;
    }

    function BoolFalse(): string
      reads this
    {
      boolFalse
    }

    function BoolTrue(): string
      reads this
    {
      boolTrue
    }

    /** The BoolFalse setter: nothing changes. */
    method SetBoolFalse(value: string)
      requires Valid()
      ensures Valid() && BoolFalse() == "false"
    {
    }

    /** The BoolTrue setter: nothing changes. */
    method SetBoolTrue(value: string)
      requires Valid()
      ensures Valid() && BoolTrue() == "true"
    {
    }

    method SetCleanWhiteSpace(value: bool)
      requires Valid()
      modifies this
      ensures Valid() && CleanWhiteSpace == value
    {
      CleanWhiteSpace := value;
    }
  }

  /** The Boolean case: null displays as BoolFalse, a bool by its value; any
      other value fails the (bool) cast. */
  function BooleanDisplay(attributeValue: Value, options: DisplayStringOptions): (r: Result<string>)
    reads options
    requires options.Valid()
    ensures attributeValue == Null ==> r == Success("false")
    ensures attributeValue.Bool? ==> r == Success(if attributeValue.b then "true" else "false")
    ensures r.Failure? <==> attributeValue != Null && !attributeValue.Bool?
  {
    if attributeValue == Null then Success(options.BoolFalse())
    else if !attributeValue.Bool? then Failure(InvalidCast)
    else Success(if attributeValue.b then options.BoolTrue() else options.BoolFalse())
  }

  /** Value.ToString(): the text of a string or an object carrying its text;
      other types print through .NET formatting, given as `format`. */
  function ValueText(v: Value, format: Value -> string): string {
    match v
    case Str(s) => s
    case Other(text) => text
    case _ => format(v)
  }

  /** The default case: null displays as null; otherwise ToString, with
      runs of whitespace turned into one space and the ends trimmed when
      CleanWhiteSpace is set and the text is not empty. */
  function DefaultDisplay(attributeValue: Value, cleanWhiteSpace: bool, format: Value -> string): (r: Option<string>)
    ensures r == None <==> attributeValue == Null
    ensures r.Some? && !cleanWhiteSpace ==> r.value == ValueText(attributeValue, format)
    ensures r.Some? && cleanWhiteSpace ==>
      && Collapsed(r.value)
      && (r.value == [] || (!IsWhiteSpace(r.value[0]) && !IsWhiteSpace(r.value[|r.value| - 1])))
      && NonWhiteSpace(r.value) == NonWhiteSpace(ValueText(attributeValue, format))
  {
    if attributeValue == Null then None
    else
      var result := ValueText(attributeValue, format);
      if cleanWhiteSpace && result != [] then Some(CleanWhiteSpace(result)) else Some(result)
  }

  /** With CleanWhiteSpace set, a run of whitespace between two words of
      the text displays as exactly one space, and the text on either side
      is cleaned on its own. */
  lemma DefaultDisplayJoinsWords(attributeValue: Value, format: Value -> string, u: string, w: string, v: string)
    requires attributeValue != Null && ValueText(attributeValue, format) == u + w + v
    requires w != [] && IsBlank(w)
    requires u != [] && !IsWhiteSpace(u[|u| - 1])
    requires v != [] && !IsWhiteSpace(v[0])
    ensures DefaultDisplay(attributeValue, true, format) == Some(CleanWhiteSpace(u) + " " + CleanWhiteSpace(v))
  {
    CleanJoin(u, w, v);
  }
}
