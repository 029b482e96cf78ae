/** Maximis.Toolkit.Xrm/Activities/ActivityHelper.cs: building the activity
    party records (sender, recipients, attendees, ...) of an activity.
    CreateAttachment goes through the organization service and is not part
    of this model. */
module ActivityHelper {
  import opened Wrappers
  import opened Xrm

  /** ActivityPartyType. */
  datatype ActivityPartyType =
    | Sender | ToRecipient | CCRecipient | BccRecipient | RequiredAttendee | OptionalAttendee
    | Organizer | Regarding | Owner | Resource | Customer | Partner

  /** The enum's integer values, 1 to 12 in declaration order. */
  function Mask(partyType: ActivityPartyType): (r: int)
    ensures 1 <= r <= 12
  {
    match partyType
    case Sender => 1
    case ToRecipient => 2
    case CCRecipient => 3
    case BccRecipient => 4
    case RequiredAttendee => 5
    case OptionalAttendee => 6
    case Organizer => 7
    case Regarding => 8
    case Owner => 9
    case Resource => 10
    case Customer => 11
    case Partner => 12
  }

  /** Different party types have different masks. */
  lemma MaskInjective(a: ActivityPartyType, b: ActivityPartyType)
    ensures Mask(a) == Mask(b) <==> a == b
  {
  }

  /** The attributes of a party record. */
  function PartyAttributes(partyType: ActivityPartyType, entityRef: EntityReference): map<string, Value> {
    map["partyid" := Ref(entityRef), "participationtypemask" := OptionSet(Mask(partyType))]
  }

  /** A party record reads back as the reference and the type it was built
      from. */
  lemma PartyAttributesRoundTrip(partyType: ActivityPartyType, entityRef: EntityReference)
    ensures var attrs := PartyAttributes(partyType, entityRef);
      && attrs.Keys == {"partyid", "participationtypemask"}
      && attrs["partyid"] == Ref(entityRef)
      && attrs["participationtypemask"].OptionSet?
      && (forall t :: Mask(t) == attrs["participationtypemask"].option ==> t == partyType)
  {
    forall t | Mask(t) == PartyAttributes(partyType, entityRef)["participationtypemask"].option
      ensures t == partyType
    {
      MaskInjective(t, partyType);
    }
  }

  /** GetActivityParty: no record for a null reference; otherwise a new
      "activityparty" record naming the reference and the party type. */
  method GetActivityParty(partyType: ActivityPartyType, entityRef: Option<EntityReference>) returns (r: Entity?)
    ensures r == null <==> entityRef.None?
    ensures r != null ==>
      fresh(r) && r.LogicalName == "activityparty" && r.Id == EmptyGuid && r.Attributes == PartyAttributes(partyType, entityRef.value)
  {
    if entityRef.None? {
      return null;
    }
    r := new Entity("activityparty");
    r.Set("partyid", Ref(entityRef.value));
    r.Set("participationtypemask", OptionSet(Mask(partyType)));
  }

  /** The non-null references, in order. */
  function Present(entityRefs: seq<Option<EntityReference>>): (r: seq<EntityReference>)
    ensures |r| <= |entityRefs|
    ensures forall x :: x in r <==> Some(x) in entityRefs
  {
    if entityRefs == [] then []
    else
      var init := entityRefs[..|entityRefs| - 1];
      var last := entityRefs[|entityRefs| - 1];
      assert entityRefs == init + [last];
      Present(init) + (if last.Some? then [last.value] else [])
  }

  /** Filtering keeps the order: the references of a concatenation are
      those of its parts, one after the other. */
  lemma {:induction false} PresentAppend(a: seq<Option<EntityReference>>, b: seq<Option<EntityReference>>)
    ensures Present(a + b) == Present(a) + Present(b)
    decreases |b|
  {
    if b == [] {
      assert a + b == a;
    } else {
      var init := b[..|b| - 1];
      assert (a + b)[..|a + b| - 1] == a + init && (a + b)[|a + b| - 1] == b[|b| - 1];
      PresentAppend(a, init);
    }
  }

  lemma PresentNext(entityRefs: seq<Option<EntityReference>>, i: nat)
    requires i < |entityRefs|
    ensures Present(entityRefs[..i + 1]) == Present(entityRefs[..i]) + if entityRefs[i].Some? then [entityRefs[i].value] else []
  {
    assert entityRefs[..i + 1][..i] == entityRefs[..i] && entityRefs[..i + 1][i] == entityRefs[i];
  }

  /** A party record of the given type for the given reference. */
  predicate IsParty(e: Entity, partyType: ActivityPartyType, entityRef: EntityReference)
    reads e
  {
    e.LogicalName == "activityparty" && e.Id == EmptyGuid && e.Attributes == PartyAttributes(partyType, entityRef)
  }

  /** GetActivityPartyArray: null for a null or empty array and when every
      reference is null; otherwise one new party record per non-null
      reference, in order. */
  method GetActivityPartyArray(partyType: ActivityPartyType, entityRefs: Option<seq<Option<EntityReference>>>)
    returns (r: Option<seq<Entity>>)
    ensures r.None? <==> entityRefs.None? || Present(entityRefs.value) == []
    ensures r.Some? ==>
      && |r.value| == |Present(entityRefs.value)|
      && (forall i :: 0 <= i < |r.value| ==> fresh(r.value[i]) && IsParty(r.value[i], partyType, Present(entityRefs.value)[i]))
      && (forall i, j :: 0 <= i < j < |r.value| ==> r.value[i] != r.value[j])
  {
    if entityRefs.None? || |entityRefs.value| == 0 {
      return None;
    }
    var refs := entityRefs.value;
    var result: seq<Entity> := [];
    var i := 0;
    while i < |refs|
      invariant 0 <= i <= |refs|
      invariant |result| == |Present(refs[..i])|
      invariant forall k :: 0 <= k < |result| ==> fresh(result[k]) && IsParty(result[k], partyType, Present(refs[..i])[k])
      invariant forall k, m :: 0 <= k < m < |result| ==> result[k] != result[m]
    {
      PresentNext(refs, i);
      var partyMember := GetActivityParty(partyType, refs[i]);
      if partyMember != null {
        var party: Entity := partyMember;
        result := result + [party];
      }
      i := i + 1;
    }
    assert refs[..i] == refs;
    if |result| > 0 {
      return Some(result);
    }
    return None;
  }
}
