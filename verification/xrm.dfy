/** The Dynamics CRM SDK types that the toolkit works on, reduced to what its
    logic inspects: records (Entity) with an attribute bag, references to
    records, attribute values, and the metadata records that describe
    entities, attributes, option sets and relationships. */
module Xrm {
  import opened Wrappers

  /** The messages of the .NET exceptions the toolkit lets through. */
  const NullReference := "NullReferenceException: Object reference not set to an instance of an object."
  const InvalidCast := "InvalidCastException: Specified cast is not valid."

  /** A Guid is an opaque identifier; 0 stands for Guid.Empty. */
  type Guid = nat

  const EmptyGuid: Guid := 0

  /** EntityReference: the target entity's logical name ("" when unset),
      its Id and its optional display name. */
  datatype EntityReference = EntityReference(LogicalName: string, Id: Guid, Name: Option<string>)

  datatype DateTimeKind = Unspecified | Utc | Local

  /** An attribute value as stored in an Entity's attribute bag. DateTime
      carries its ticks and kind; Other is any further object, represented by
      the text its ToString returns. */
  datatype Value =
    | Null
    | Str(s: string)
    | Int(i: int)
    | Decimal(d: real)
    | Double(x: real)
    | Bool(b: bool)
    | GuidValue(g: Guid)
    | DateTime(ticks: int, kind: DateTimeKind)
    | Money(amount: real)
    | OptionSet(option: int)
    | Ref(reference: EntityReference)
    | Aliased(entityLogicalName: string, attributeLogicalName: string, inner: Value)
    | Other(text: string)

  /** DateTime.ToUniversalTime: a UTC value is kept, a local or unspecified
      one is converted by the machine's time zone rule `localToUtc`. */
  function UniversalTicks(ticks: int, kind: DateTimeKind, localToUtc: int -> int): int {
    if kind == Utc then ticks else localToUtc(ticks)
  }

  /** string.IsNullOrEmpty(v.ToString()) for a non-null value: only a string
      or an object whose ToString is empty qualifies; numbers, booleans,
      dates and SDK types all print something. */
  predicate ToStringIsEmpty(v: Value) {
    (v.Str? && v.s == []) || (v.Other? && v.text == [])
  }

  /** The run-time types of attribute and parameter values; ObjectType is
      `object`, which every value converts to, and OtherType the type of an
      Other value. */
  datatype ValueType =
    | StringType | Int32Type | DecimalType | DoubleType | BooleanType | GuidType | DateTimeType
    | MoneyType | OptionSetValueType | EntityReferenceType | AliasedValueType | OtherType | ObjectType

  /** GetType() of a non-null value. */
  function TypeOf(v: Value): (t: ValueType)
    requires !v.Null?
    ensures t != ObjectType
  {
    match v
    case Str(_) => StringType
    case Int(_) => Int32Type
    case Decimal(_) => DecimalType
    case Double(_) => DoubleType
    case Bool(_) => BooleanType
    case GuidValue(_) => GuidType
    case DateTime(_, _) => DateTimeType
    case Money(_) => MoneyType
    case OptionSet(_) => OptionSetValueType
    case Ref(_) => EntityReferenceType
    case Aliased(_, _, _) => AliasedValueType
    case Other(_) => OtherType
  }

  /** Type.FullName; an Other value's type lies outside the model and is
      reported as System.Object. */
  function TypeName(t: ValueType): string {
    match t
    case StringType => "System.String"
    case Int32Type => "System.Int32"
    case DecimalType => "System.Decimal"
    case DoubleType => "System.Double"
    case BooleanType => "System.Boolean"
    case GuidType => "System.Guid"
    case DateTimeType => "System.DateTime"
    case MoneyType => "Microsoft.Xrm.Sdk.Money"
    case OptionSetValueType => "Microsoft.Xrm.Sdk.OptionSetValue"
    case EntityReferenceType => "Microsoft.Xrm.Sdk.EntityReference"
    case AliasedValueType => "Microsoft.Xrm.Sdk.AliasedValue"
    case OtherType => "System.Object"
    case ObjectType => "System.Object"
  }

  /** default(T): zero for the value types, null for the reference types. */
  function DefaultOf(t: ValueType): (v: Value)
    ensures v.Null? <==> t !in {Int32Type, DecimalType, DoubleType, BooleanType, GuidType, DateTimeType}
    ensures !v.Null? ==> TypeOf(v) == t
  {
    match t
    case Int32Type => Int(0)
    case DecimalType => Decimal(0.0)
    case DoubleType => Double(0.0)
    case BooleanType => Bool(false)
    case GuidType => GuidValue(EmptyGuid)
    case DateTimeType => DateTime(0, Unspecified)
    case _ => Null
  }

  /** The cast (T)value: null becomes default(T); any other value must be
      of type T, or T must be object. */
  function Cast(v: Value, t: ValueType): (r: Result<Value>)
    ensures r.Failure? <==> !v.Null? && t != ObjectType && TypeOf(v) != t
    ensures r.Failure? ==> r.error == InvalidCast
    ensures r.Success? ==> r.value == (if v.Null? then DefaultOf(t) else v)
  {
    if v.Null? then Success(DefaultOf(t))
    else if t == ObjectType || TypeOf(v) == t then Success(v)
    else Failure(InvalidCast)
  }

  /** Entity.GetAttributeValue<T>: a missing key reads as null. */
  function GetAttributeValueAs(attributes: map<string, Value>, key: string, t: ValueType): (r: Result<Value>)
    ensures key !in attributes ==> r == Success(DefaultOf(t))
    ensures key in attributes ==> r == Cast(attributes[key], t)
  {
    if key in attributes then Cast(attributes[key], t) else Success(DefaultOf(t))
  }

  /** Microsoft.Xrm.Sdk.Entity: a record whose attribute bag is changed in
      place. */
  class Entity {
    var LogicalName: string
    var Id: Guid
    var Attributes: map<string, Value>

    /** new Entity(logicalName): no Id and no attributes. */
    constructor (logicalName: string)
      ensures LogicalName == logicalName && Id == EmptyGuid && Attributes == map[]
    {
      LogicalName := logicalName;
      Id := EmptyGuid;
      Attributes := map[];
    }

    /** The indexer's setter: adds the key or replaces its value. */
    method Set(key: string, value: Value)
      modifies this
      ensures Attributes == old(Attributes)[key := value]
      ensures LogicalName == old(LogicalName) && Id == old(Id)
    {
      Attributes := Attributes[key := value];
    }
  }

  // --------------------------------------------------------------- Metadata

  /** An option of an option set; Label is the user-localized label, None
      when the option has none. */
  datatype OptionMeta = OptionMeta(Value: int, Label: Option<string>)

  /** AttributeMetadata: DisplayName is the user-localized display label,
      None when the display name, its localized label or its text is
      missing. Options is the option set of an enumeration attribute. */
  datatype AttributeMeta = AttributeMeta(LogicalName: string, DisplayName: Option<string>, Options: seq<OptionMeta>)

  /** OneToManyRelationshipMetadata, used for both the 1:N and the N:1 lists. */
  datatype OneToManyMeta = OneToManyMeta(SchemaName: string, ReferencedEntity: string, ReferencingEntity: string)

  datatype ManyToManyMeta = ManyToManyMeta(SchemaName: string, Entity1LogicalName: string, Entity2LogicalName: string)

  /** RelationshipMetadataBase. */
  datatype Relationship = OneToMany(oneToMany: OneToManyMeta) | ManyToMany(manyToMany: ManyToManyMeta)

  /** EntityMetadata; an empty primary attribute name stands for null. */
  datatype EntityMetadata = EntityMetadata(
    LogicalName: string,
    PrimaryIdAttribute: string,
    PrimaryNameAttribute: string,
    Attributes: seq<AttributeMeta>,
    OneToManyRelationships: seq<OneToManyMeta>,
    ManyToOneRelationships: seq<OneToManyMeta>,
    ManyToManyRelationships: seq<ManyToManyMeta>)

  /** What MetadataHelper.GetEntityMetadata retrieves from the organization
      service, by entity name; a name that is not a key makes it throw. */
  type MetadataStore = map<string, EntityMetadata>
}
