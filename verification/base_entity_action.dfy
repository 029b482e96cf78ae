/** Maximis.Toolkit.Xrm/EntityActions/BaseEntityAction.cs: the two helpers
    that entity actions share. PerformAction is abstract and is not part of
    this model. */
module BaseEntityAction {
  import opened Wrappers
  import opened Xrm

  /** GetOptionSetValue: the option-set value under `attributeName`, 0 when
      it is missing or null; a value of another type fails the cast. */
  function GetOptionSetValue(attributes: map<string, Value>, attributeName: string): (r: Result<int>)
    ensures r.Failure? <==> attributeName in attributes && !attributes[attributeName].Null? && !attributes[attributeName].OptionSet?
    ensures r.Failure? ==> r.error == InvalidCast
    ensures r.Success? && attributeName in attributes && attributes[attributeName].OptionSet? ==> r.value == attributes[attributeName].option
    ensures r.Success? && (attributeName !in attributes || attributes[attributeName].Null?) ==> r.value == 0
  {
    match GetAttributeValueAs(attributes, attributeName, OptionSetValueType)
    case Failure(e) => Failure(e)
    case Success(osVal) => Success(if osVal.Null? then 0 else osVal.option)
  }

  /** CompareEntityReferences: false when exactly one side is null, and
      otherwise equal exactly when the Ids are; the logical names are not
      compared. Two nulls reach `r1.Id` and throw. */
  function CompareEntityReferences(r1: Option<EntityReference>, r2: Option<EntityReference>): (r: Result<bool>)
    ensures r.Failure? <==> r1.None? && r2.None?
    ensures r.Failure? ==> r.error == NullReference
    ensures r1.None? != r2.None? ==> r == Success(false)
    ensures r1.Some? && r2.Some? ==> r == Success(r1.value.Id == r2.value.Id)
  {
    if r1.None? && r2.Some? then Success(false)
    else if r2.None? && r1.Some? then Success(false)
    else if r1.None? || r2.None? then Failure(NullReference)
    else Success(r1.value.Id == r2.value.Id)
  }

  /** On non-null references the comparison is an equivalence: reflexive,
      symmetric and transitive. */
  lemma CompareIsEquivalence(a: EntityReference, b: EntityReference, c: EntityReference)
    ensures CompareEntityReferences(Some(a), Some(a)) == Success(true)
    ensures CompareEntityReferences(Some(a), Some(b)) == CompareEntityReferences(Some(b), Some(a))
    ensures CompareEntityReferences(Some(a), Some(b)) == Success(true) && CompareEntityReferences(Some(b), Some(c)) == Success(true)
      ==> CompareEntityReferences(Some(a), Some(c)) == Success(true)
  {
  }

  /** References to records of different types compare equal when their Ids
      do. */
  lemma LogicalNameIgnored(a: EntityReference, logicalName: string)
    ensures CompareEntityReferences(Some(a), Some(a.(LogicalName := logicalName))) == Success(true)
  {
  }
}
