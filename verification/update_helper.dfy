/** Maximis.Toolkit.Xrm/UpdateHelper.cs, GetUpdateEntity: reduces an update
    to the attributes that really change a record, so that saving it writes
    no needless audit entries. The other members of that file talk to the
    organization service and are not part of this model. */
module UpdateHelper {
  import opened Wrappers
  import opened Xrm

  /** What happens to one key of the update: it stays, it is removed, it is
      set to null, or reading the new value as the current value's type
      throws InvalidCastException. */
  datatype Outcome = Keep | Drop | SetNull | CastError

  /** The current record's value for `key`; absent counts as null. */
  function CurrentValue(current: map<string, Value>, key: string): Value {
    if key in current then current[key] else Null
  }

  /** Whether the update's value is the current value again, compared the
      way the current value's type compares: references by Id alone, dates
      by the instant they denote, money by its amount, anything else by
      equality. */
  predicate SameValue(currentValue: Value, newValue: Value, localToUtc: int -> int) {
    match currentValue
    case DateTime(ticks, kind) =>
      newValue.DateTime? && UniversalTicks(newValue.ticks, newValue.kind, localToUtc) == UniversalTicks(ticks, kind, localToUtc)
    case Ref(r) => newValue.Ref? && newValue.reference.Id == r.Id
    case Money(amount) => newValue.Money? && newValue.amount == amount
    case _ => newValue == currentValue
  }

  /** The decision for one key, from the current value (Null when the
      current record has none) and the update's value. */
  function Decide(currentValue: Value, newValue: Value, localToUtc: int -> int): (o: Outcome)
    // no current value: an update to null or to empty text is dropped, any other is kept
    ensures currentValue == Null ==> (o == Drop <==> newValue == Null || ToStringIsEmpty(newValue)) && o != SetNull && o != CastError
    // an empty string current value and a null or empty update lead to an explicit null, and nothing else does
    ensures o == SetNull <==> currentValue == Str([]) && (newValue == Null || newValue == Str([]))
    // otherwise, with a current value and no cast failure, a key is kept exactly when its value changes
    ensures currentValue != Null && o != CastError && o != SetNull ==> (o == Keep <==> !SameValue(currentValue, newValue, localToUtc))
    // a reference to the same record, whatever its logical name, is dropped
    ensures currentValue.Ref? && newValue.Ref? && newValue.reference.Id == currentValue.reference.Id ==> o == Drop
    // the same instant, whatever the kind, is dropped
    ensures currentValue.DateTime? && newValue.DateTime?
         && UniversalTicks(newValue.ticks, newValue.kind, localToUtc) == UniversalTicks(currentValue.ticks, currentValue.kind, localToUtc)
         ==> o == Drop
    // the same amount of money, the same non-empty string, or an equal value of another type is dropped
    ensures currentValue != Null && currentValue == newValue && currentValue != Str([]) ==> o == Drop
    ensures currentValue.Money? && newValue.Money? && newValue.amount == currentValue.amount ==> o == Drop
    // a null update of a non-string value is kept
    ensures currentValue != Null && !currentValue.Str? && newValue == Null ==> o == Keep
    // a cast failure needs a typed current value and a value of another type
    ensures o == CastError <==>
      newValue != Null && currentValue != Null
      && ((currentValue.DateTime? && !newValue.DateTime?) || (currentValue.Money? && !newValue.Money?) || (currentValue.Str? && !newValue.Str?))
  {
    if currentValue == Null then
      if newValue == Null || ToStringIsEmpty(newValue) then Drop else Keep
    else
      match currentValue
      case DateTime(ticks, kind) =>
        if newValue == Null then Keep
        else if !newValue.DateTime? then CastError
        else if UniversalTicks(newValue.ticks, newValue.kind, localToUtc) == UniversalTicks(ticks, kind, localToUtc) then Drop
        else Keep
      case Ref(oldRef) =>
        if newValue.Ref? && newValue.reference.Id == oldRef.Id then Drop else Keep
      case Money(amount) =>
        if newValue == Null then Keep
        else if !newValue.Money? then CastError
        else if newValue.amount == amount then Drop
        else Keep
      case Str(oldStr) =>
        if newValue != Null && !newValue.Str? then CastError
        else if oldStr == [] && (newValue == Null || newValue.s == []) then SetNull
        else if newValue == Str(oldStr) then Drop
        else Keep
      case _ =>
        if currentValue == newValue then Drop else Keep
  }

  /** The attribute bag after the keys in `processed` were handled: a handled
      key is dropped, nulled or kept as its decision says, an unhandled key
      is as it was. */
  function Processed(update: map<string, Value>, current: map<string, Value>, localToUtc: int -> int, processed: set<string>): map<string, Value> {
    map k | k in update && (k !in processed || Decide(CurrentValue(current, k), update[k], localToUtc) != Drop) ::
      if k in processed && Decide(CurrentValue(current, k), update[k], localToUtc) == SetNull then Null else update[k]
  }

  /** No key of the update makes a cast fail. */
  predicate CastsSucceed(update: map<string, Value>, current: map<string, Value>, localToUtc: int -> int) {
    forall k :: k in update ==> Decide(CurrentValue(current, k), update[k], localToUtc) != CastError
  }

  /** The message of the exception thrown for entities with different ids. */
  const IdsDoNotMatch := "Entity Ids do not match!"

  /** GetUpdateEntity: the ids must match; then every key of `update` is
      decided against `current` and `update` itself is changed and returned.
      A failed cast throws after the keys handled before it were changed;
      keys are visited in the dictionary's order, which is not modelled, so
      the failure case holds for some set of handled keys. `update` and
      `current` may be the same entity: each key's decision reads only that
      key, so the current values read before any change are the ones the
      source reads. */
  method GetUpdateEntity(update: Entity, current: Entity, localToUtc: int -> int) returns (r: Result<Entity>)
    modifies update
    ensures update.LogicalName == old(update.LogicalName) && update.Id == old(update.Id)
    ensures update.Attributes.Keys <= old(update.Attributes.Keys)
    ensures r.Success? <==> old(update.Id) == old(current.Id) && CastsSucceed(old(update.Attributes), old(current.Attributes), localToUtc)
    ensures r.Success? ==> r.value == update
    ensures r.Success? ==>
      update.Attributes == Processed(old(update.Attributes), old(current.Attributes), localToUtc, old(update.Attributes.Keys))
    ensures old(update.Id) != old(current.Id) ==> update.Attributes == old(update.Attributes)
    ensures r.Failure? ==> exists processed: set<string> ::
      (processed <= old(update.Attributes.Keys)
       && update.Attributes == Processed(old(update.Attributes), old(current.Attributes), localToUtc, processed))
  {
    if update.Id != current.Id {
      assert update.Attributes == Processed(update.Attributes, current.Attributes, localToUtc, {});
      return Failure(IdsDoNotMatch);
    }
    ghost var original := update.Attributes;
    var currentValues := current.Attributes;
    assert update.Attributes == Processed(original, currentValues, localToUtc, {});
    var remaining := update.Attributes.Keys;
    while remaining != {}
      invariant remaining <= original.Keys
      invariant update.LogicalName == old(update.LogicalName) && update.Id == old(update.Id)
      invariant update.Attributes == Processed(original, currentValues, localToUtc, original.Keys - remaining)
      invariant forall k :: k in original && k !in remaining ==> Decide(CurrentValue(currentValues, k), original[k], localToUtc) != CastError
      decreases remaining
    {
      var key :| key in remaining;
      ghost var done := original.Keys - remaining;
      assert key in update.Attributes && update.Attributes[key] == original[key];
      var outcome := Decide(CurrentValue(currentValues, key), update.Attributes[key], localToUtc);
      if outcome == CastError {
        assert !CastsSucceed(original, currentValues, localToUtc) by {
          assert key in original;
        }
        return Failure(InvalidCast);
      }
      HandleKey(original, currentValues, localToUtc, done, key);
      if outcome == Drop {
        update.Attributes := update.Attributes - {key};
      } else if outcome == SetNull {
        update.Attributes := update.Attributes[key := Null];
      }
      remaining := remaining - {key};
      assert original.Keys - remaining == done + {key};
    }
    return Success(update);
  }

  /** Handling one more key changes the bag at that key only, as its
      decision says. */
  lemma HandleKey(update: map<string, Value>, current: map<string, Value>, localToUtc: int -> int, processed: set<string>, key: string)
    requires key in update && key !in processed
    ensures var o := Decide(CurrentValue(current, key), update[key], localToUtc);
      var before := Processed(update, current, localToUtc, processed);
      Processed(update, current, localToUtc, processed + {key})
        == (if o == Drop then before - {key} else if o == SetNull then before[key := Null] else before)
  {
  }

  // ------------------------------------------------------------ Properties

  /** Reducing an already reduced update changes nothing more: every key it
      keeps is kept again, and a key set to null stays null. */
  lemma {:induction false} ReductionIdempotent(update: map<string, Value>, current: map<string, Value>, localToUtc: int -> int)
    requires CastsSucceed(update, current, localToUtc)
    ensures var reduced := Processed(update, current, localToUtc, update.Keys);
      CastsSucceed(reduced, current, localToUtc)
      && Processed(reduced, current, localToUtc, reduced.Keys) == reduced
  {
    var reduced := Processed(update, current, localToUtc, update.Keys);
    forall k | k in reduced
      ensures Decide(CurrentValue(current, k), reduced[k], localToUtc)
           == (if reduced[k] == Null && Decide(CurrentValue(current, k), update[k], localToUtc) == SetNull then SetNull else Keep)
    {
      var o := Decide(CurrentValue(current, k), update[k], localToUtc);
      assert o == Keep || o == SetNull;
      if o == SetNull {
        assert CurrentValue(current, k) == Str([]);
      }
    }
  }
}
