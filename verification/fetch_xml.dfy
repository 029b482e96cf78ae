/** Maximis.Toolkit.Xrm/FetchXmlHelper.cs: ExtractRelatedEntities, which
    turns the aliased columns of a FetchXML result row ("alias.attribute",
    each holding an AliasedValue) into one new entity per alias. Running the
    query and the conversions between FetchXML and QueryExpression go
    through the organization service and are not part of this model. */
module FetchXml {
  import opened Wrappers
  import opened Xrm
  import opened ToolkitExtensions

  /** The state of one related entity being built. */
  datatype Related = Related(LogicalName: string, Id: Guid, Attributes: map<string, Value>)

  /** The related entities by alias, and the aliases in the order their
      entities were created. */
  datatype Groups = Groups(Order: seq<string>, Entities: map<string, Related>)

  ghost predicate WellFormed(g: Groups) {
    && (forall i, j :: 0 <= i < j < |g.Order| ==> g.Order[i] != g.Order[j])
    && (forall a :: a in g.Entities <==> a in g.Order)
  }

  /** A column contributes when its name holds a '.', it has a value, and
      that value is an AliasedValue. */
  predicate Contributes(attrs: map<string, Value>, key: string) {
    key in attrs && '.' in key && attrs[key].Aliased?
  }

  /** The alias part of a column name: the text before the first '.'. */
  function EntityKey(key: string): string {
    LeftOfFirst(key, '.')
  }

  /** An aliased value names its entity's primary key when its attribute is
      the entity's logical name followed by "id". */
  predicate IsPrimaryKey(v: Value)
    requires v.Aliased?
  {
    v.attributeLogicalName == v.entityLogicalName + "id"
  }

  /** The failure of a primary-key value that is not a Guid: the unboxing
      cast throws on null and on any other type. */
  function KeyFailure(v: Value): string {
    if v == Null then NullReference else InvalidCast
  }

  /** One aliased value applied to its entity: a primary-key value also
      sets the Id, and the value is stored under the aliased attribute's own
      name. */
  function Applied(e: Related, v: Value): (r: Related)
    requires v.Aliased? && (IsPrimaryKey(v) ==> v.inner.GuidValue?)
    ensures r.LogicalName == e.LogicalName
    ensures r.Id == if IsPrimaryKey(v) then v.inner.g else e.Id
    ensures r.Attributes == e.Attributes[v.attributeLogicalName := v.inner]
  {
    var withId := if IsPrimaryKey(v) then e.(Id := v.inner.g) else e;
    withId.(Attributes := withId.Attributes[v.attributeLogicalName := v.inner])
  }

  /** The entity of alias `ek` before a column is applied: the one built so
      far, or a new one with `logicalName`, no Id and no attributes. */
  function Start(g: Groups, ek: string, logicalName: string): Related {
    if ek in g.Entities then g.Entities[ek] else Related(logicalName, EmptyGuid, map[])
  }

  /** One contributing column: the alias's entity is created on first use
      with the aliased value's entity name; a primary-key value that is not
      a Guid fails, and otherwise the value is applied to the entity. */
  function AddAliased(g: Groups, key: string, v: Value): (r: Result<Groups>)
    requires v.Aliased?
    ensures WellFormed(g) && r.Success? ==> WellFormed(r.value)
  {
    var ek := EntityKey(key);
    var e := Start(g, ek, v.entityLogicalName);
    var order := if ek in g.Entities then g.Order else g.Order + [ek];
    if IsPrimaryKey(v) && !v.inner.GuidValue? then Failure(KeyFailure(v.inner))
    else Success(Groups(order, g.Entities[ek := Applied(e, v)]))
  }

  /** The related entities after the columns `keys`, in that order. */
  function Grouped(attrs: map<string, Value>, keys: seq<string>): (r: Result<Groups>)
    ensures r.Success? ==> WellFormed(r.value)
  {
    if keys == [] then Success(Groups([], map[]))
    else
      match Grouped(attrs, keys[..|keys| - 1])
      case Failure(e) => Failure(e)
      case Success(g) =>
        var key := keys[|keys| - 1];
        if Contributes(attrs, key) then AddAliased(g, key, attrs[key]) else Success(g)
  }

  /** The state of an entity object. */
  function Snapshot(e: Entity): Related
    reads e
  {
    Related(e.LogicalName, e.Id, e.Attributes)
  }

  /** The entity objects hold exactly the related entities of `g`: one
      distinct object per alias, each in the state `g` gives it. */
  ghost predicate Mirrors(related: map<string, Entity>, g: Groups)
    reads set a | a in related :: related[a]
  {
    && (forall a :: a in related <==> a in g.Entities)
    && Distinct(related)
    && (forall a :: a in related ==> Snapshot(related[a]) == g.Entities[a])
  }

  /** No entity object is shared by two aliases. */
  predicate Distinct(related: map<string, Entity>) {
    forall a, b :: a in related && b in related && a != b ==> related[a] != related[b]
  }

  /** ExtractRelatedEntities. `keys` is the order in which the row's
      attribute collection enumerates its keys. */
  method ExtractRelatedEntities(mainEntity: Entity, keys: seq<string>) returns (r: Result<seq<Entity>>)
    requires forall k :: k in mainEntity.Attributes <==> k in keys
    requires forall i, j :: 0 <= i < j < |keys| ==> keys[i] != keys[j]
    ensures r.Success? <==> Grouped(mainEntity.Attributes, keys).Success?
    ensures r.Success? ==>
      var g := Grouped(mainEntity.Attributes, keys).value;
      && |r.value| == |g.Order|
      && (forall i :: 0 <= i < |r.value| ==> fresh(r.value[i]) && Snapshot(r.value[i]) == g.Entities[g.Order[i]])
      && (forall i, j :: 0 <= i < j < |r.value| ==> r.value[i] != r.value[j])
    ensures r.Failure? ==> r.error == Grouped(mainEntity.Attributes, keys).error
  {
    var related, order, failed;
    ghost var g;
    related, order, failed, g := GroupColumns(mainEntity.Attributes, keys);
    if failed.Some? {
      return Failure(failed.value);
    }
    var entities := ValuesInOrder(related, order, g);
    r := Success(entities);
  }

  /** The foreach over the row's columns: each contributing column is added
      to the entity of its alias, and the first primary-key value that is
      not a Guid stops the loop with the cast's exception. */
  method GroupColumns(attrs: map<string, Value>, keys: seq<string>)
    returns (related: map<string, Entity>, order: seq<string>, failed: Option<string>, ghost g: Groups)
    ensures failed.Some? <==> Grouped(attrs, keys).Failure?
    ensures failed.Some? ==> failed.value == Grouped(attrs, keys).error
    ensures failed.None? ==> Grouped(attrs, keys) == Success(g) && order == g.Order && Mirrors(related, g)
    ensures forall a :: a in related ==> fresh(related[a])
  {
    related := map[];
    order := [];
    g := Groups([], map[]);
    var i := 0;
    assert keys[..0] == [];
    while i < |keys|
      invariant 0 <= i <= |keys|
      invariant Grouped(attrs, keys[..i]) == Success(g)
      invariant order == g.Order
      invariant forall a :: a in related ==> fresh(related[a])
      invariant Mirrors(related, g)
    {
      var key := keys[i];
      GroupedNext(attrs, keys, i);
      if '.' in key && key in attrs && attrs[key] != Null {
        var v := attrs[key];
        if v.Aliased? {
          related, order, failed := AddColumn(related, order, key, v, g);
          if failed.Some? {
            GroupedFailure(attrs, keys, i + 1, failed.value);
            return;
          }
          g := AddAliased(g, key, v).value;
        }
      }
      assert Grouped(attrs, keys[..i + 1]) == Success(g);
      i := i + 1;
    }
    assert keys[..i] == keys;
    failed := None;
  }

  /** relatedEntities.Values.ToList(): the entity objects in the order their
      aliases were added. */
  method ValuesInOrder(related: map<string, Entity>, order: seq<string>, ghost g: Groups) returns (entities: seq<Entity>)
    requires WellFormed(g) && order == g.Order && Mirrors(related, g)
    ensures |entities| == |g.Order|
    ensures forall k :: 0 <= k < |entities| ==>
      g.Order[k] in related && entities[k] == related[g.Order[k]] && Snapshot(entities[k]) == g.Entities[g.Order[k]]
    ensures forall k, m :: 0 <= k < m < |entities| ==> entities[k] != entities[m]
  {
    entities := seq(|order|, k requires 0 <= k < |order| => related[order[k]]);
    forall k, m | 0 <= k < m < |entities| ensures entities[k] != entities[m] {
      assert order[k] != order[m];
    }
  }

  /** The body of the loop for a contributing column. */
  method AddColumn(related: map<string, Entity>, order: seq<string>, key: string, v: Value, ghost g: Groups)
    returns (related': map<string, Entity>, order': seq<string>, failed: Option<string>)
    requires v.Aliased? && WellFormed(g) && order == g.Order && Mirrors(related, g)
    modifies set a | a in related :: related[a]
    ensures failed.Some? <==> AddAliased(g, key, v).Failure?
    ensures failed.Some? ==> failed.value == AddAliased(g, key, v).error
    ensures failed.None? ==> Mirrors(related', AddAliased(g, key, v).value) && order' == AddAliased(g, key, v).value.Order
    ensures forall a :: a in related' ==> (a in related && related'[a] == related[a]) || fresh(related'[a])
  {
    var ek := EntityKey(key);
    var e;
    related', order', e := EntityFor(related, order, ek, v.entityLogicalName);
    ghost var before := Snapshot(e);
    assert before == Start(g, ek, v.entityLogicalName);
    assert forall a :: a in related' && a != ek ==> a in related && related'[a] == related[a] && related[a] != e;
    assert Distinct(related');
    failed := ApplyAliased(e, v);
    if failed.Some? {
      return;
    }
    AddAliasedEntities(g, key, v);
    ghost var after := AddAliased(g, key, v).value;
    forall a | a in related' && a != ek ensures Snapshot(related'[a]) == after.Entities[a] {
      assert related'[a] == related[a] && related[a] != e;
      assert Snapshot(related[a]) == g.Entities[a];
    }
  }

  /** A column that succeeds replaces the entity of its alias by the value
      applied to it, and touches no other alias. */
  lemma AddAliasedEntities(g: Groups, key: string, v: Value)
    requires v.Aliased? && AddAliased(g, key, v).Success?
    ensures var ek := EntityKey(key);
      && (IsPrimaryKey(v) ==> v.inner.GuidValue?)
      && AddAliased(g, key, v).value.Entities == g.Entities[ek := Applied(Start(g, ek, v.entityLogicalName), v)]
      && AddAliased(g, key, v).value.Order == if ek in g.Entities then g.Order else g.Order + [ek]
  {
  }

  /** The entity of alias `ek`, created with `logicalName` and appended to
      the order when the alias is new. */
  method EntityFor(related: map<string, Entity>, order: seq<string>, ek: string, logicalName: string)
    returns (related': map<string, Entity>, order': seq<string>, e: Entity)
    ensures ek in related' && e == related'[ek]
    ensures ek in related ==> related' == related && order' == order
    ensures ek !in related ==>
      && related' == related[ek := e] && order' == order + [ek]
      && fresh(e) && Snapshot(e) == Related(logicalName, EmptyGuid, map[])
  {
    related' := related;
    order' := order;
    if ek !in related' {
      var created := new Entity(logicalName);
      related' := related'[ek := created];
      order' := order' + [ek];
    }
    e := related'[ek];
  }

  /** Applies one aliased value to an entity object in place. */
  method ApplyAliased(e: Entity, v: Value) returns (failed: Option<string>)
    requires v.Aliased?
    modifies e
    ensures failed.Some? <==> IsPrimaryKey(v) && !v.inner.GuidValue?
    ensures failed.Some? ==> failed.value == KeyFailure(v.inner) && Snapshot(e) == old(Snapshot(e))
    ensures failed.None? ==> Snapshot(e) == Applied(old(Snapshot(e)), v)
  {
    if IsPrimaryKey(v) {
      if !v.inner.GuidValue? {
        return Some(if v.inner == Null then NullReference else InvalidCast);
      }
      e.Id := v.inner.g;
    }
    e.Set(v.attributeLogicalName, v.inner);
    failed := None;
  }

  lemma GroupedNext(attrs: map<string, Value>, keys: seq<string>, i: nat)
    requires i < |keys|
    ensures Grouped(attrs, keys[..i + 1])
         == match Grouped(attrs, keys[..i])
            case Failure(e) => Failure(e)
            case Success(g) => if Contributes(attrs, keys[i]) then AddAliased(g, keys[i], attrs[keys[i]]) else Success(g)
  {
    assert keys[..i + 1][..i] == keys[..i] && keys[..i + 1][i] == keys[i];
  }

  /** Once a column fails, every longer prefix fails the same way. */
  lemma {:induction false} GroupedFailure(attrs: map<string, Value>, keys: seq<string>, n: nat, e: string)
    requires n <= |keys| && Grouped(attrs, keys[..n]) == Failure(e)
    ensures Grouped(attrs, keys) == Failure(e)
    decreases |keys|
  {
    if n < |keys| {
      var init := keys[..|keys| - 1];
      assert init[..n] == keys[..n];
      GroupedFailure(attrs, init, n, e);
    } else {
      assert keys[..n] == keys;
    }
  }

  // ------------------------------------------------------------ Properties

  /** Column i contributes to the entity of alias a. */
  predicate ContributesTo(attrs: map<string, Value>, keys: seq<string>, i: int, a: string) {
    0 <= i < |keys| && Contributes(attrs, keys[i]) && EntityKey(keys[i]) == a
  }

  /** A contributing primary-key column whose value is not a Guid. */
  predicate BadKey(attrs: map<string, Value>, key: string) {
    Contributes(attrs, key) && IsPrimaryKey(attrs[key]) && !attrs[key].inner.GuidValue?
  }

  /** The grouping fails exactly when some primary-key column holds
      something other than a Guid. */
  lemma {:induction false} GroupedFails(attrs: map<string, Value>, keys: seq<string>)
    ensures Grouped(attrs, keys).Failure? <==> exists i :: 0 <= i < |keys| && BadKey(attrs, keys[i])
  {
    if keys != [] {
      var init := keys[..|keys| - 1];
      GroupedFails(attrs, init);
      assert forall i :: 0 <= i < |init| ==> init[i] == keys[i];
      if Grouped(attrs, init).Success? {
        assert forall i :: 0 <= i < |init| ==> !BadKey(attrs, keys[i]);
      }
    }
  }

  /** The last column either leaves the grouping as it was or adds its
      aliased value to it. */
  lemma GroupedStep(attrs: map<string, Value>, keys: seq<string>)
    requires keys != [] && Grouped(attrs, keys).Success?
    ensures var init := keys[..|keys| - 1];
      var last := keys[|keys| - 1];
      && Grouped(attrs, init).Success?
      && (!Contributes(attrs, last) ==> Grouped(attrs, keys) == Grouped(attrs, init))
      && (Contributes(attrs, last) ==> Grouped(attrs, keys) == AddAliased(Grouped(attrs, init).value, last, attrs[last]))
  {
  }

  /** Column j of the prefix contributes as it does in the whole row. */
  lemma ContributesInit(attrs: map<string, Value>, keys: seq<string>, j: int, a: string)
    requires keys != [] && j < |keys| - 1
    ensures ContributesTo(attrs, keys[..|keys| - 1], j, a) == ContributesTo(attrs, keys, j, a)
  {
    if 0 <= j {
      assert keys[..|keys| - 1][j] == keys[j];
    }
  }

  /** There is one entity for each alias that some column contributes to,
      and for no other. */
  lemma GroupedAliases(attrs: map<string, Value>, keys: seq<string>)
    requires Grouped(attrs, keys).Success?
    ensures forall a :: a in Grouped(attrs, keys).value.Entities <==> exists i :: ContributesTo(attrs, keys, i, a)
  {
    forall a ensures a in Grouped(attrs, keys).value.Entities <==> exists i :: ContributesTo(attrs, keys, i, a) {
      if a in Grouped(attrs, keys).value.Entities {
        AliasHasColumn(attrs, keys, a);
      }
      if exists i :: ContributesTo(attrs, keys, i, a) {
        ColumnHasAlias(attrs, keys, a);
      }
    }
  }

  lemma {:induction false} AliasHasColumn(attrs: map<string, Value>, keys: seq<string>, a: string)
    requires Grouped(attrs, keys).Success? && a in Grouped(attrs, keys).value.Entities
    ensures exists i :: ContributesTo(attrs, keys, i, a)
  {
    var init := keys[..|keys| - 1];
    var last := keys[|keys| - 1];
    GroupedStep(attrs, keys);
    var before := Grouped(attrs, init).value;
    if Contributes(attrs, last) {
      AddAliasedEntities(before, last, attrs[last]);
    }
    if a in before.Entities {
      AliasHasColumn(attrs, init, a);
      var i :| ContributesTo(attrs, init, i, a);
      ContributesInit(attrs, keys, i, a);
    } else {
      assert ContributesTo(attrs, keys, |keys| - 1, a);
    }
  }

  lemma {:induction false} ColumnHasAlias(attrs: map<string, Value>, keys: seq<string>, a: string)
    requires Grouped(attrs, keys).Success?
    requires exists i :: ContributesTo(attrs, keys, i, a)
    ensures a in Grouped(attrs, keys).value.Entities
  {
    var init := keys[..|keys| - 1];
    var last := keys[|keys| - 1];
    GroupedStep(attrs, keys);
    var before := Grouped(attrs, init).value;
    if Contributes(attrs, last) {
      AddAliasedEntities(before, last, attrs[last]);
    }
    var i :| ContributesTo(attrs, keys, i, a);
    if i < |init| {
      ContributesInit(attrs, keys, i, a);
      ColumnHasAlias(attrs, init, a);
    }
  }

  /** Every attribute of a related entity comes from a column contributing
      to it, stored under the aliased attribute's name with the aliased
      value. */
  lemma {:induction false} GroupedAttributeOrigins(attrs: map<string, Value>, keys: seq<string>)
    requires Grouped(attrs, keys).Success?
    ensures var g := Grouped(attrs, keys).value;
      forall a, n :: a in g.Entities && n in g.Entities[a].Attributes ==>
        exists i :: (ContributesTo(attrs, keys, i, a) && attrs[keys[i]].attributeLogicalName == n
          && attrs[keys[i]].inner == g.Entities[a].Attributes[n])
  {
    if keys != [] {
      var init := keys[..|keys| - 1];
      GroupedAttributeOrigins(attrs, init);
      var before := Grouped(attrs, init).value;
      var g := Grouped(attrs, keys).value;
      var last := keys[|keys| - 1];
      forall a, n | a in g.Entities && n in g.Entities[a].Attributes
        ensures exists i :: (ContributesTo(attrs, keys, i, a) && attrs[keys[i]].attributeLogicalName == n
          && attrs[keys[i]].inner == g.Entities[a].Attributes[n])
      {
        if Contributes(attrs, last) && EntityKey(last) == a && attrs[last].attributeLogicalName == n {
          assert ContributesTo(attrs, keys, |keys| - 1, a);
        } else {
          AttributeKept(attrs, keys, a, n);
          var i :| ContributesTo(attrs, init, i, a) && attrs[init[i]].attributeLogicalName == n
            && attrs[init[i]].inner == before.Entities[a].Attributes[n];
          assert keys[i] == init[i];
          assert ContributesTo(attrs, keys, i, a);
        }
      }
    }
  }

  /** An attribute the last column does not write was there before it,
      with the same value. */
  lemma AttributeKept(attrs: map<string, Value>, keys: seq<string>, a: string, n: string)
    requires keys != [] && Grouped(attrs, keys).Success?
    requires var g := Grouped(attrs, keys).value; a in g.Entities && n in g.Entities[a].Attributes
    requires var last := keys[|keys| - 1];
      !(Contributes(attrs, last) && EntityKey(last) == a && attrs[last].attributeLogicalName == n)
    ensures var before := Grouped(attrs, keys[..|keys| - 1]).value;
      a in before.Entities && n in before.Entities[a].Attributes
      && before.Entities[a].Attributes[n] == Grouped(attrs, keys).value.Entities[a].Attributes[n]
  {
  }

  /** Every contributing column's attribute is present in its alias's
      entity. */
  lemma {:induction false} GroupedAttributesPresent(attrs: map<string, Value>, keys: seq<string>)
    requires Grouped(attrs, keys).Success?
    ensures var g := Grouped(attrs, keys).value;
      forall i :: 0 <= i < |keys| && Contributes(attrs, keys[i]) ==>
        EntityKey(keys[i]) in g.Entities && attrs[keys[i]].attributeLogicalName in g.Entities[EntityKey(keys[i])].Attributes
  {
    if keys != [] {
      var init := keys[..|keys| - 1];
      GroupedAttributesPresent(attrs, init);
      var g := Grouped(attrs, keys).value;
      forall i | 0 <= i < |keys| && Contributes(attrs, keys[i])
        ensures EntityKey(keys[i]) in g.Entities && attrs[keys[i]].attributeLogicalName in g.Entities[EntityKey(keys[i])].Attributes
      {
        if i < |init| {
          assert init[i] == keys[i];
        }
      }
    }
  }

  /** A related entity's Id, once set, is the Guid of a primary-key column
      contributing to it. */
  lemma {:induction false} GroupedIds(attrs: map<string, Value>, keys: seq<string>)
    requires Grouped(attrs, keys).Success?
    ensures var g := Grouped(attrs, keys).value;
      forall a :: a in g.Entities && g.Entities[a].Id != EmptyGuid ==>
        exists i :: ContributesTo(attrs, keys, i, a) && IsPrimaryKey(attrs[keys[i]]) && attrs[keys[i]].inner == GuidValue(g.Entities[a].Id)
  {
    if keys != [] {
      var init := keys[..|keys| - 1];
      GroupedIds(attrs, init);
      var before := Grouped(attrs, init).value;
      var g := Grouped(attrs, keys).value;
      var last := keys[|keys| - 1];
      forall a | a in g.Entities && g.Entities[a].Id != EmptyGuid
        ensures exists i :: ContributesTo(attrs, keys, i, a) && IsPrimaryKey(attrs[keys[i]]) && attrs[keys[i]].inner == GuidValue(g.Entities[a].Id)
      {
        if Contributes(attrs, last) && EntityKey(last) == a && IsPrimaryKey(attrs[last]) {
          assert ContributesTo(attrs, keys, |keys| - 1, a);
        } else {
          var i :| ContributesTo(attrs, init, i, a) && IsPrimaryKey(attrs[init[i]]) && attrs[init[i]].inner == GuidValue(before.Entities[a].Id);
          assert keys[i] == init[i];
        }
      }
    }
  }

  /** A related entity takes its logical name from the first column that
      contributes to it. */
  lemma GroupedNames(attrs: map<string, Value>, keys: seq<string>)
    requires Grouped(attrs, keys).Success?
    ensures var g := Grouped(attrs, keys).value;
      forall a :: a in g.Entities ==>
        exists i :: (ContributesTo(attrs, keys, i, a) && attrs[keys[i]].entityLogicalName == g.Entities[a].LogicalName
          && forall j :: 0 <= j < i ==> !ContributesTo(attrs, keys, j, a))
  {
    var g := Grouped(attrs, keys).value;
    forall a | a in g.Entities
      ensures exists i :: (ContributesTo(attrs, keys, i, a) && attrs[keys[i]].entityLogicalName == g.Entities[a].LogicalName
        && forall j :: 0 <= j < i ==> !ContributesTo(attrs, keys, j, a))
    {
      var i := NamingColumn(attrs, keys, a);
    }
  }

  /** The first column contributing to alias `a`, which gave the entity its
      logical name. */
  lemma {:induction false} NamingColumn(attrs: map<string, Value>, keys: seq<string>, a: string) returns (i: int)
    requires Grouped(attrs, keys).Success? && a in Grouped(attrs, keys).value.Entities
    ensures ContributesTo(attrs, keys, i, a)
    ensures attrs[keys[i]].entityLogicalName == Grouped(attrs, keys).value.Entities[a].LogicalName
    ensures forall j :: 0 <= j < i ==> !ContributesTo(attrs, keys, j, a)
  {
    var init := keys[..|keys| - 1];
    var last := keys[|keys| - 1];
    GroupedStep(attrs, keys);
    var before := Grouped(attrs, init).value;
    if Contributes(attrs, last) {
      AddAliasedEntities(before, last, attrs[last]);
    }
    if a in before.Entities {
      i := NamingColumn(attrs, init, a);
      ContributesInit(attrs, keys, i, a);
      assert keys[i] == init[i];
      forall j | 0 <= j < i ensures !ContributesTo(attrs, keys, j, a) {
        ContributesInit(attrs, keys, j, a);
      }
    } else {
      i := |keys| - 1;
      assert ContributesTo(attrs, keys, i, a);
      forall j | 0 <= j < i ensures !ContributesTo(attrs, keys, j, a) {
        ContributesInit(attrs, keys, j, a);
        if ContributesTo(attrs, init, j, a) {
          ColumnHasAlias(attrs, init, a);
        }
      }
    }
  }
}
