/** Maximis.Toolkit.Xrm/ExtensionMethods.cs: presence tests on an entity's
    attribute bag, merging two bags, and conversion between an entity and a
    reference to it. GetLocalDateTimeValue (time zone conversion) and
    RetrieveEntity (organization service) are not part of this model. */
module XrmExtensions {
  import opened Wrappers
  import opened Xrm

  /** The entity exists, holds the attribute, and its value is not null. */
  predicate HasAttributeWithValue(entity: Entity?, attributeName: string)
    reads entity
  {
    entity != null && attributeName in entity.Attributes && entity.Attributes[attributeName] != Null
  }

  /** The entity holds the attribute and its value is null. A null entity
      makes the source throw, hence the non-null parameter type. */
  predicate HasNullAttribute(entity: Entity, attributeName: string)
    reads entity
  {
    attributeName in entity.Attributes && entity.Attributes[attributeName] == Null
  }

  /** The two tests split the attributes an entity holds: every held
      attribute passes exactly one of them, and an absent one passes neither. */
  lemma AttributePresence(entity: Entity, attributeName: string)
    ensures attributeName in entity.Attributes <==> HasAttributeWithValue(entity, attributeName) || HasNullAttribute(entity, attributeName)
    ensures !(HasAttributeWithValue(entity, attributeName) && HasNullAttribute(entity, attributeName))
    ensures !HasAttributeWithValue(null, attributeName)
  {
  }

  /** Merge: copies into `primary` every attribute of `secondary` that
      `primary` lacks, null values included, and returns `primary`; when one
      side is null the other is returned untouched. */
  method Merge(primary: Entity?, secondary: Entity?) returns (r: Entity?)
    modifies primary
    ensures primary == null ==> r == secondary
    ensures primary != null ==> r == primary
    ensures primary != null ==> primary.LogicalName == old(primary.LogicalName) && primary.Id == old(primary.Id)
    ensures primary != null && secondary == null ==> primary.Attributes == old(primary.Attributes)
    ensures primary != null && secondary != null ==>
      && primary.Attributes.Keys == old(primary.Attributes.Keys) + old(secondary.Attributes.Keys)
      && (forall k :: k in old(primary.Attributes) ==> primary.Attributes[k] == old(primary.Attributes[k]))
      && (forall k :: k in old(secondary.Attributes) && k !in old(primary.Attributes) ==>
            primary.Attributes[k] == old(secondary.Attributes[k]))
  {
    if primary == null {
      return secondary;
    }
    if secondary == null {
      return primary;
    }
    var source := secondary.Attributes;
    var remaining := source.Keys;
    while remaining != {}
      invariant remaining <= source.Keys
      invariant primary.LogicalName == old(primary.LogicalName) && primary.Id == old(primary.Id)
      invariant primary.Attributes.Keys == old(primary.Attributes.Keys) + (source.Keys - remaining)
      invariant forall k :: k in old(primary.Attributes) ==> primary.Attributes[k] == old(primary.Attributes[k])
      invariant forall k :: k in source && k !in remaining && k !in old(primary.Attributes) ==>
        primary.Attributes[k] == source[k]
      decreases remaining
    {
      var key :| key in remaining;
      if key !in primary.Attributes {
        primary.Attributes := primary.Attributes[key := source[key]];
      }
      remaining := remaining - {key};
    }
    return primary;
  }

  /** ToEntityReference: a reference to the entity's type and Id, without a
      name. */
  function ToEntityReference(entity: Entity): EntityReference
    reads entity
  {
    EntityReference(entity.LogicalName, entity.Id, None)
  }

  /** Two entities give the same reference exactly when they have the same
      type and Id; their attributes play no part. */
  lemma SameReferenceSameRecord(a: Entity, b: Entity)
    ensures ToEntityReference(a) == ToEntityReference(b) <==> a.LogicalName == b.LogicalName && a.Id == b.Id
  {
  }

  /** ToEntity: a new, empty entity of the referenced type carrying the
      reference's Id; converting it back gives the reference without its
      name. */
  method ToEntity(entityRef: EntityReference) returns (e: Entity)
    ensures fresh(e)
    ensures e.Attributes == map[]
    ensures ToEntityReference(e) == entityRef.(Name := None)
  {
    e := new Entity(entityRef.LogicalName);
    e.Id := entityRef.Id;
  }
}
