/** Maximis.Toolkit.Xrm/BasePlugin.cs: the helpers a plugin uses to read
    its input (the first entity holding an attribute, an entity image, a
    typed input parameter), to check that it runs where it was registered
    (entity, message, mode, stage), and to list its ancestor execution
    contexts. The plugin host, shared variables, the FetchXML condition
    readers and the primary-name builder are not part of this model. */
module BasePlugin {
  import opened Wrappers
  import opened Text
  import opened Xrm

  /** The error of every check that fails: InvalidPluginExecutionException. */
  function PluginError(message: string): string {
    "InvalidPluginExecutionException: " + message
  }

  /** string.Join(separator, items). */
  function Join(separator: string, items: seq<string>): string
    decreases |items|
  {
    if items == [] then ""
    else if |items| == 1 then items[0]
    else items[0] + separator + Join(separator, items[1..])
  }

  // ------------------------------------------------------ GetAttributeValue

  /** The attribute bags of a list of entities, None for a null entry. */
  function Bags(entities: seq<Entity?>): (bags: seq<Option<map<string, Value>>>)
    reads entities
    ensures |bags| == |entities|
    ensures forall i :: 0 <= i < |entities| ==> bags[i] == (if entities[i] == null then None else Some(entities[i].Attributes))
    decreases |entities|
  {
    if entities == [] then []
    else [if entities[0] == null then None else Some(entities[0].Attributes)] + Bags(entities[1..])
  }

  predicate Holds(bag: Option<map<string, Value>>, key: string) {
    bag.Some? && key in bag.value
  }

  /** The position of the first bag holding `key`, or -1. */
  function FirstHolder(bags: seq<Option<map<string, Value>>>, key: string): (k: int)
    ensures -1 <= k < |bags|
    ensures k == -1 <==> forall j :: 0 <= j < |bags| ==> !Holds(bags[j], key)
    ensures k >= 0 ==> Holds(bags[k], key) && forall j :: 0 <= j < k ==> !Holds(bags[j], key)
    decreases |bags|
  {
    if bags == [] then -1
    else if Holds(bags[0], key) then 0
    else
      var k := FirstHolder(bags[1..], key);
      assert forall j :: 0 < j < |bags| ==> bags[j] == bags[1..][j - 1];
      if k == -1 then -1 else k + 1
  }

  /** The value GetAttributeValue<T> returns for a non-empty list. */
  function FirstAttributeValue(bags: seq<Option<map<string, Value>>>, key: string, t: ValueType): Result<Value> {
    var k := FirstHolder(bags, key);
    if k == -1 then Success(DefaultOf(t)) else GetAttributeValueAs(bags[k].value, key, t)
  }

  const EmptyEntitiesMessage := "ArgumentException: GetAttributeValue<T> method called with empty 'entities' argument. Value of 'attributeName': "

  function EmptyEntitiesError(attributeName: string): string {
    EmptyEntitiesMessage + attributeName
  }

  /** GetAttributeValue<T>: an empty list is refused; otherwise the entities
      are tried in order and the first one that is not null and holds the
      attribute gives the value, converted to T; when none does, default(T). */
  method GetAttributeValue(attributeName: string, t: ValueType, entities: seq<Entity?>) returns (r: Result<Value>)
    ensures entities == [] ==> r == Failure(EmptyEntitiesError(attributeName))
    ensures entities != [] ==> r == FirstAttributeValue(Bags(entities), attributeName, t)
  {
    if |entities| == 0 {
      return Failure(EmptyEntitiesError(attributeName));
    }
    ghost var bags := Bags(entities);
    var i := 0;
    while i < |entities|
      invariant 0 <= i <= |entities|
      invariant forall j :: 0 <= j < i ==> !Holds(bags[j], attributeName)
    {
      var entity := entities[i];
      if entity != null && attributeName in entity.Attributes {
        assert Holds(bags[i], attributeName);
        FirstHolderAt(bags, attributeName, i);
        return GetAttributeValueAs(entity.Attributes, attributeName, t);
      }
      i := i + 1;
    }
    assert FirstHolder(bags, attributeName) == -1;
    return Success(DefaultOf(t));
  }

  /** A bag holding `key` with none before it is the first holder. */
  lemma FirstHolderAt(bags: seq<Option<map<string, Value>>>, key: string, i: nat)
    requires i < |bags| && Holds(bags[i], key)
    requires forall j :: 0 <= j < i ==> !Holds(bags[j], key)
    ensures FirstHolder(bags, key) == i
  {
    var k := FirstHolder(bags, key);
    assert k != -1;
    assert !(k < i) && !(i < k);
  }

  /** Entities after the first one holding the attribute are never read;
      entities before it that do not hold it change nothing. */
  lemma FirstMatchWins(first: seq<Option<map<string, Value>>>, rest: seq<Option<map<string, Value>>>, key: string, t: ValueType)
    ensures FirstHolder(first, key) >= 0 ==> FirstAttributeValue(first + rest, key, t) == FirstAttributeValue(first, key, t)
    ensures FirstHolder(first, key) == -1 && FirstHolder(rest, key) >= 0 ==>
      FirstAttributeValue(first + rest, key, t) == FirstAttributeValue(rest, key, t)
  {
    var all := first + rest;
    var k := FirstHolder(first, key);
    if k >= 0 {
      assert all[k] == first[k];
      assert forall j :: 0 <= j < k ==> all[j] == first[j];
      assert FirstHolder(all, key) == k;
    } else {
      var m := FirstHolder(rest, key);
      if m >= 0 {
        assert all[|first| + m] == rest[m];
        assert forall j :: 0 <= j < |first| ==> all[j] == first[j];
        assert forall j :: |first| <= j < |first| + m ==> all[j] == rest[j - |first|];
        assert FirstHolder(all, key) == |first| + m;
      }
    }
  }

  // ------------------------------------------------ GetEntityImage / GetParameter

  /** GetEntityImage: the image under `key`, null when there is none; a
      missing image is an error when `errorIfMissing`. */
  function GetEntityImage(images: map<string, Entity?>, key: string, errorIfMissing: bool): (r: Result<Entity?>)
    ensures r.Failure? <==> errorIfMissing && (key !in images || images[key] == null)
    ensures r.Failure? ==> r.error == PluginError("Failed to retrieve entity image with key '" + key + "'.")
    ensures r.Success? ==> r.value == (if key in images then images[key] else null)
  {
    var result := if key in images then images[key] else null;
    if errorIfMissing && result == null then Failure(PluginError("Failed to retrieve entity image with key '" + key + "'."))
    else Success(result)
  }

  /** A parameter is usable as T when it is present, not null and exactly
      of type T (so never when T is object). */
  predicate HasParameter(parameters: map<string, Value>, key: string, t: ValueType) {
    key in parameters && !parameters[key].Null? && TypeOf(parameters[key]) == t
  }

  /** The "'key' (type)" items of the error message, in the collection's
      enumeration order `keys`; a null value makes GetType() throw. */
  function ParameterItems(parameters: map<string, Value>, keys: seq<string>): (r: Result<seq<string>>)
    requires forall k :: k in keys ==> k in parameters
    ensures r.Failure? <==> exists i :: 0 <= i < |keys| && parameters[keys[i]].Null?
    ensures r.Failure? ==> r.error == NullReference
    ensures r.Success? ==> |r.value| == |keys|
    decreases |keys|
  {
    if keys == [] then Success([])
    else if parameters[keys[0]].Null? then Failure(NullReference)
    else
      match ParameterItems(parameters, keys[1..])
      case Failure(e) => Failure(e)
      case Success(items) => Success(["'" + keys[0] + "' (" + TypeName(TypeOf(parameters[keys[0]])) + ")"] + items)
  }

  function MissingParameterError(parameters: map<string, Value>, keys: seq<string>, key: string, t: ValueType): string
    requires forall k :: k in keys ==> k in parameters
  {
    match ParameterItems(parameters, keys)
    case Failure(e) => e
    case Success(items) =>
      PluginError("Failed to retrieve parameter of type '" + TypeName(t) + "' with key '" + key
        + "'. Available keys and object types are: " + Join(", ", items))
  }

  /** GetParameter<T>: the parameter under `key` when it is usable as T;
      otherwise an error when `errorIfMissing`, else default(T). `keys` is
      the order in which the collection enumerates its keys, each once. */
  function GetParameter(parameters: map<string, Value>, keys: seq<string>, key: string, t: ValueType, errorIfMissing: bool): (r: Result<Value>)
    requires forall k :: k in parameters <==> k in keys
    requires forall i, j :: 0 <= i < j < |keys| ==> keys[i] != keys[j]
    ensures r.Failure? <==> errorIfMissing && !HasParameter(parameters, key, t)
    ensures r.Failure? ==> r.error == MissingParameterError(parameters, keys, key, t)
    ensures r.Success? ==> r.value == (if HasParameter(parameters, key, t) then parameters[key] else DefaultOf(t))
  {
    var result := if key in parameters then parameters[key] else Null;
    if result.Null? || TypeOf(result) != t then
      if errorIfMissing then Failure(MissingParameterError(parameters, keys, key, t))
      else Success(DefaultOf(t))
    else Success(result)
  }

  /** With errorIfMissing off, GetParameter never fails, and a parameter of
      type object is never found. */
  lemma ParameterWithoutError(parameters: map<string, Value>, keys: seq<string>, key: string, t: ValueType)
    requires forall k :: k in parameters <==> k in keys
    requires forall i, j :: 0 <= i < j < |keys| ==> keys[i] != keys[j]
    ensures GetParameter(parameters, keys, key, t, false).Success?
    ensures t == ObjectType ==> GetParameter(parameters, keys, key, t, false) == Success(Null)
  {
  }

  // ------------------------------------------------------------- Validation

  /** The facts of the running plugin that the checks read. */
  datatype ExecutionContext = ExecutionContext(PrimaryEntityName: string, MessageName: string, OperationId: Guid, Stage: int)

  datatype ExecutionMode = Synchronous | Asynchronous

  function ModeName(mode: ExecutionMode): string {
    match mode
    case Synchronous => "Synchronous"
    case Asynchronous => "Asynchronous"
  }

  datatype PluginStage = PreValidation | PreOperation | PostOperation

  /** The enum's integer values. */
  function StageValue(stage: PluginStage): int {
    match stage
    case PreValidation => 10
    case PreOperation => 20
    case PostOperation => 40
  }

  /** Enum.ToString of a PluginStage cast from an integer: the member's name,
      or the number when no member has that value. */
  function StageName(value: int): string {
    if value == 10 then "PreValidation"
    else if value == 20 then "PreOperation"
    else if value == 40 then "PostOperation"
    else IntToString(value)
  }

  /** The one rule behind every check: the actual value is returned when it
      is among the allowed ones, and the error is raised otherwise. */
  function Allowed<T(==)>(actual: T, allowed: seq<T>, error: string): (r: Result<T>)
    ensures r.Success? <==> actual in allowed
    ensures r.Success? ==> r.value == actual
    ensures r.Failure? ==> r.error == error
  {
    if actual in allowed then Success(actual) else Failure(error)
  }

  function ValidatePluginEntityType(context: ExecutionContext, entityTypes: seq<string>): (r: Result<string>)
    ensures r.Success? <==> context.PrimaryEntityName in entityTypes
    ensures r.Success? ==> r.value == context.PrimaryEntityName
    ensures r.Failure? ==> r.error == PluginError("Plugin is designed for these entities: '" + Join("', '", entityTypes)
      + "', but is running against '" + context.PrimaryEntityName + "' entity.")
  {
    Allowed(context.PrimaryEntityName, entityTypes,
      PluginError("Plugin is designed for these entities: '" + Join("', '", entityTypes)
        + "', but is running against '" + context.PrimaryEntityName + "' entity."))
  }

  /** An operation id of Guid.Empty marks a synchronous execution. */
  function ActualMode(context: ExecutionContext): (mode: ExecutionMode)
    ensures mode == Synchronous <==> context.OperationId == EmptyGuid
  {
    if context.OperationId == EmptyGuid then Synchronous else Asynchronous
  }

  function ValidatePluginExecutionMode(context: ExecutionContext, modes: seq<ExecutionMode>): (r: Result<ExecutionMode>)
    ensures r.Success? <==> ActualMode(context) in modes
    ensures r.Success? ==> r.value == ActualMode(context)
    ensures r.Failure? ==> r.error == PluginError("Plugin is designed for execution in " + ModeName(ActualMode(context)) + " mode.")
  {
    var actualMode := ActualMode(context);
    Allowed(actualMode, modes, PluginError("Plugin is designed for execution in " + ModeName(actualMode) + " mode."))
  }

  function ValidatePluginMessage(context: ExecutionContext, messages: seq<string>): (r: Result<string>)
    ensures r.Success? <==> context.MessageName in messages
    ensures r.Success? ==> r.value == context.MessageName
    ensures r.Failure? ==> r.error == PluginError("Plugin is designed for these messages: '" + Join("', '", messages)
      + "', but is running against '" + context.MessageName + "' message.")
  {
    Allowed(context.MessageName, messages,
      PluginError("Plugin is designed for these messages: '" + Join("', '", messages)
        + "', but is running against '" + context.MessageName + "' message."))
  }

  /** The allowed stages' names, in order, as the error message lists them. */
  function StageNames(stages: seq<PluginStage>): (names: seq<string>)
    ensures |names| == |stages|
    ensures forall i :: 0 <= i < |stages| ==> names[i] == StageName(StageValue(stages[i]))
    decreases |stages|
  {
    if stages == [] then [] else [StageName(StageValue(stages[0]))] + StageNames(stages[1..])
  }

  /** The allowed values, as the integers the context's stage is compared
      with. */
  function StageValues(stages: seq<PluginStage>): (values: seq<int>)
    ensures |values| == |stages|
    ensures forall i :: 0 <= i < |stages| ==> values[i] == StageValue(stages[i])
    decreases |stages|
  {
    if stages == [] then [] else [StageValue(stages[0])] + StageValues(stages[1..])
  }

  function ValidatePluginStage(context: ExecutionContext, stages: seq<PluginStage>): (r: Result<int>)
    ensures r.Success? <==> exists i :: 0 <= i < |stages| && StageValue(stages[i]) == context.Stage
    ensures r.Success? ==> r.value == context.Stage && r.value in {10, 20, 40}
    ensures r.Failure? ==> r.error == PluginError("Plugin is designed for these stages: '" + Join("', '", StageNames(stages))
      + "', but is running against '" + StageName(context.Stage) + "' stage.")
  {
    var values := StageValues(stages);
    assert context.Stage in values <==> exists i :: 0 <= i < |stages| && StageValue(stages[i]) == context.Stage by {
      if context.Stage in values {
        var i :| 0 <= i < |values| && values[i] == context.Stage;
        assert StageValue(stages[i]) == context.Stage;
      }
    }
    Allowed(context.Stage, values,
      PluginError("Plugin is designed for these stages: '" + Join("', '", StageNames(stages))
        + "', but is running against '" + StageName(context.Stage) + "' stage."))
  }

  // ---------------------------------------------------- GetAncestorContexts

  /** IPluginExecutionContext, reduced to its link to the context of the
      operation that triggered it. */
  class PluginExecutionContext {
    var ParentContext: PluginExecutionContext?

    constructor (parent: PluginExecutionContext?)
      ensures ParentContext == parent
    {
      ParentContext := parent;
    }
  }

  /** `chain` is the list of ancestors of `context`, nearest first: each
      entry is the parent of the one before it and the last has no parent. */
  ghost predicate IsChain(context: PluginExecutionContext, chain: seq<PluginExecutionContext>)
    reads context, chain
  {
    && (chain == [] ==> context.ParentContext == null)
    && (chain != [] ==> context.ParentContext == chain[0] && chain[|chain| - 1].ParentContext == null)
    && (forall i, j :: 0 <= i < |chain| && j == i + 1 && j < |chain| ==> chain[i].ParentContext == chain[j])
  }

  /** GetAncestorContexts: follows the parent links until there is none. */
  method GetAncestorContexts(context: PluginExecutionContext, ghost chain: seq<PluginExecutionContext>) returns (result: seq<PluginExecutionContext>)
    requires IsChain(context, chain)
    ensures result == chain
    ensures context !in result
  {
    result := [];
    var ancestor := context.ParentContext;
    ghost var i := 0;
    while ancestor != null
      invariant 0 <= i <= |chain|
      invariant result == chain[..i]
      invariant ancestor == (if i < |chain| then chain[i] else null)
      decreases |chain| - i
    {
      result := result + [ancestor];
      ancestor := ancestor.ParentContext;
      i := i + 1;
    }
    assert result == chain;
    ChainExcludesSelf(context, chain);
  }

  /** The ancestors of an ancestor are the rest of the list. */
  lemma ChainSuffix(context: PluginExecutionContext, chain: seq<PluginExecutionContext>, k: nat)
    requires IsChain(context, chain) && k < |chain|
    ensures IsChain(chain[k], chain[k + 1..])
  {
    var rest := chain[k + 1..];
    forall i, j | 0 <= i < |rest| && j == i + 1 && j < |rest|
      ensures rest[i].ParentContext == rest[j]
    {
      assert rest[i] == chain[k + 1 + i] && rest[j] == chain[k + 1 + j];
    }
    if rest != [] {
      assert rest[0] == chain[k + 1];
      assert rest[|rest| - 1] == chain[|chain| - 1];
    }
  }

  /** The ancestor list is determined by the context. */
  lemma {:induction false} ChainUnique(context: PluginExecutionContext, c1: seq<PluginExecutionContext>, c2: seq<PluginExecutionContext>)
    requires IsChain(context, c1) && IsChain(context, c2)
    ensures c1 == c2
    decreases |c1|
  {
    ChainHead(context, c1, c2);
    if c1 != [] {
      ChainSuffix(context, c1, 0);
      ChainSuffix(context, c2, 0);
      ChainUnique(c1[0], c1[1..], c2[1..]);
      SameHeadSameTail(c1, c2);
    }
  }

  /** Both lists start with the context's parent, if it has one. */
  lemma ChainHead(context: PluginExecutionContext, c1: seq<PluginExecutionContext>, c2: seq<PluginExecutionContext>)
    requires IsChain(context, c1) && IsChain(context, c2)
    ensures c1 == [] <==> c2 == []
    ensures c1 != [] ==> c1[0] == c2[0]
  {
  }

  lemma SameHeadSameTail<T>(s1: seq<T>, s2: seq<T>)
    requires s1 != [] && s2 != [] && s1[0] == s2[0] && s1[1..] == s2[1..]
    ensures s1 == s2
  {
    assert s1 == [s1[0]] + s1[1..];
    assert s2 == [s2[0]] + s2[1..];
  }

  /** A context is never among its own ancestors: the walk cannot come back
      to where it started. */
  lemma ChainExcludesSelf(context: PluginExecutionContext, chain: seq<PluginExecutionContext>)
    requires IsChain(context, chain)
    ensures context !in chain
  {
    if context in chain {
      var k :| 0 <= k < |chain| && chain[k] == context;
      ChainSuffix(context, chain, k);
      ChainUnique(context, chain[k + 1..], chain);
    }
  }
}
