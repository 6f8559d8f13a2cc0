/**
 * The table plugin's registry of interactive table selections: one handle
 * per table key, bound once the table has a rendered element, released when
 * the editor reports the table destroyed and when the plugin unmounts.
 */
module TableSelectionRegistry {
  import opened Lexical

  /** The kinds of change a mutation listener hears about (`NodeMutation`). */
  datatype NodeMutation = Created | Updated | Destroyed

  /** The keys of a mutation batch are distinct: the editor delivers a map. */
  predicate DistinctKeys(mutations: seq<(Key, NodeMutation)>)
  {
    forall i, j :: 0 <= i < j < |mutations| ==> mutations[i].0 != mutations[j].0
  }

  predicate Distinct(keys: seq<Key>)
  {
    forall i, j :: 0 <= i < j < |keys| ==> keys[i] != keys[j]
  }

  /**
   * The created-entries pipeline: keys tagged "created" whose node, looked up
   * in the current editor state, is a table node, in batch order.
   */
  function CreatedTableKeys(mutations: seq<(Key, NodeMutation)>, tableKeys: set<Key>): (r: seq<Key>)
    ensures forall k :: k in r <==> (k, Created) in mutations && k in tableKeys
    ensures |r| <= |mutations|
  {
    if |mutations| == 0 then []
    else
      var rest := CreatedTableKeys(mutations[1..], tableKeys);
      assert forall m :: m in mutations <==> m == mutations[0] || m in mutations[1..];
      if mutations[0].1 == Created && mutations[0].0 in tableKeys then [mutations[0].0] + rest else rest
  }

  /** The destroyed-entries pipeline: keys tagged "destroyed", in batch order. */
  function DestroyedKeys(mutations: seq<(Key, NodeMutation)>): (r: seq<Key>)
    ensures forall k :: k in r <==> (k, Destroyed) in mutations
    ensures DistinctKeys(mutations) ==> Distinct(r)
  {
    if |mutations| == 0 then []
    else
      var rest := DestroyedKeys(mutations[1..]);
      assert forall m :: m in mutations <==> m == mutations[0] || m in mutations[1..];
      if mutations[0].1 == Destroyed then
        assert DistinctKeys(mutations) ==> (mutations[0].0, Destroyed) !in mutations[1..];
        [mutations[0].0] + rest
      else rest
  }

  /** A batch with distinct keys never tags one key both created and
      destroyed, so no handle bound in a batch is released in the same batch. */
  lemma CreatedDestroyedDisjoint(mutations: seq<(Key, NodeMutation)>, tableKeys: set<Key>)
    requires DistinctKeys(mutations)
    ensures forall k :: !(k in CreatedTableKeys(mutations, tableKeys) && k in DestroyedKeys(mutations))
  {
  }

  /** The interactive selection `applyTableHandlers` binds to a rendered table. */
  class TableSelection {
    const tableKey: Key
    const tableElement: Element
    var released: bool

    constructor Apply(tableKey: Key, tableElement: Element)
      ensures this.tableKey == tableKey && this.tableElement == tableElement && !released
    {
      this.tableKey := tableKey;
      this.tableElement := tableElement;
      released := false;
    }

    /** `removeListeners`: detaches the handle's listeners. */
    method RemoveListeners()
      modifies this
      ensures released
    {
      released := true;
    }
  }

  /**
   * The state of the plugin's second effect: the map from table key to
   * handle, and whether the effect is mounted (its mutation listener
   * registered).
   */
  class Registry {
    var tableSelections: map<Key, TableSelection>
    var mounted: bool

    /** Every key has its own handle, bound to that key, and while mounted
        no handle in the map has been released. */
    ghost predicate Valid()
      reads this, tableSelections.Values
    {
      && (forall k1, k2 :: k1 in tableSelections && k2 in tableSelections && k1 != k2 ==>
            tableSelections[k1] != tableSelections[k2])
      && (forall k :: k in tableSelections ==> tableSelections[k].tableKey == k)
      && (mounted ==> forall k :: k in tableSelections ==> !tableSelections[k].released)
    }

    /**
     * Mounting the effect: every table node already in the editor state is
     * offered to InitializeTableNode, then the mutation listener is registered.
     */
    constructor Mount(tableNodes: seq<Key>, elements: map<Key, Element>)
      ensures Valid() && mounted
      ensures tableSelections.Keys == set k | k in tableNodes && k in elements
      ensures forall k :: k in tableSelections ==>
        fresh(tableSelections[k]) && tableSelections[k].tableElement == elements[k]
    {
      tableSelections := map[];
      mounted := true;
      new;
      for i := 0 to |tableNodes|
        invariant Valid() && mounted
        invariant tableSelections.Keys == set k | k in tableNodes[..i] && k in elements
        invariant forall k :: k in tableSelections ==>
          fresh(tableSelections[k]) && tableSelections[k].tableElement == elements[k]
      {
        assert tableNodes[..i + 1] == tableNodes[..i] + [tableNodes[i]];
        InitializeTableNode(tableNodes[i], elements);
      }
      assert tableNodes[..|tableNodes|] == tableNodes;
    }

    /**
     * `initializeTableNode`: binds a handle for the table only when it has a
     * rendered element and no handle yet; otherwise nothing changes.
     */
    method InitializeTableNode(nodeKey: Key, elements: map<Key, Element>)
      requires Valid() && mounted
      modifies this`tableSelections
      ensures Valid() && mounted
      ensures nodeKey in elements && nodeKey !in old(tableSelections) ==>
        && tableSelections.Keys == old(tableSelections.Keys) + {nodeKey}
        && fresh(tableSelections[nodeKey])
        && tableSelections[nodeKey].tableElement == elements[nodeKey]
        && forall k :: k in old(tableSelections) ==> tableSelections[k] == old(tableSelections[k])
      ensures nodeKey !in elements || nodeKey in old(tableSelections) ==>
        tableSelections == old(tableSelections)
    {
      if nodeKey in elements && nodeKey !in tableSelections {
        var tableSelection := new TableSelection.Apply(nodeKey, elements[nodeKey]);
        tableSelections := tableSelections[nodeKey := tableSelection];
      }
    }

    /**
     * The mutation listener. First every created key that resolves to a
     * table node is offered to InitializeTableNode; then the handles of the
     * destroyed keys are looked up and each one found is released and removed.
     */
    method OnMutations(nodeMutations: seq<(Key, NodeMutation)>, tableKeys: set<Key>, elements: map<Key, Element>)
      requires Valid() && mounted
      requires DistinctKeys(nodeMutations)
      modifies this`tableSelections, tableSelections.Values
      ensures Valid() && mounted
      ensures tableSelections.Keys ==
        (old(tableSelections.Keys) + (set k | k in CreatedTableKeys(nodeMutations, tableKeys) && k in elements))
        - (set k | k in DestroyedKeys(nodeMutations))
      ensures forall k :: k in tableSelections && k in old(tableSelections) ==>
        tableSelections[k] == old(tableSelections[k])
      ensures forall k :: k in tableSelections && k !in old(tableSelections) ==>
        fresh(tableSelections[k]) && tableSelections[k].tableElement == elements[k]
      ensures forall k :: k in old(tableSelections) && k in DestroyedKeys(nodeMutations) ==>
        old(tableSelections[k]).released
    {
      var created := CreatedTableKeys(nodeMutations, tableKeys);
      InitializeTableNodes(created, elements);
      var destroyed := DestroyedKeys(nodeMutations);
      CleanUpAll(destroyed);
    }

    /** Offers every created table key, in batch order, to InitializeTableNode. */
    method InitializeTableNodes(created: seq<Key>, elements: map<Key, Element>)
      requires Valid() && mounted
      modifies this`tableSelections
      ensures Valid() && mounted
      ensures tableSelections.Keys == old(tableSelections.Keys) + (set k | k in created && k in elements)
      ensures forall k :: k in old(tableSelections) ==> tableSelections[k] == old(tableSelections[k])
      ensures forall k :: k in tableSelections && k !in old(tableSelections) ==>
        fresh(tableSelections[k]) && tableSelections[k].tableElement == elements[k]
    {
      for i := 0 to |created|
        invariant Valid() && mounted
        invariant tableSelections.Keys ==
          old(tableSelections.Keys) + (set k | k in created[..i] && k in elements)
        invariant forall k :: k in old(tableSelections) ==> tableSelections[k] == old(tableSelections[k])
        invariant forall k :: k in tableSelections && k !in old(tableSelections) ==>
          fresh(tableSelections[k]) && tableSelections[k].tableElement == elements[k]
      {
        assert created[..i + 1] == created[..i] + [created[i]];
        InitializeTableNode(created[i], elements);
      }
      assert created[..|created|] == created;
    }

    /** The destroyed pass: every destroyed key's handle is looked up first, then
        each key is cleaned up in turn. */
    method CleanUpAll(destroyed: seq<Key>)
      requires Valid() && mounted
      requires Distinct(destroyed)
      modifies this`tableSelections, tableSelections.Values
      ensures Valid() && mounted
      ensures tableSelections.Keys == old(tableSelections.Keys) - (set k | k in destroyed)
      ensures forall k :: k in tableSelections ==> tableSelections[k] == old(tableSelections[k])
      ensures forall k :: k in old(tableSelections) && k in destroyed ==> old(tableSelections[k]).released
    {
      var pending := GetTableSelections(destroyed);
      for i := 0 to |pending|
        invariant Valid() && mounted
        invariant tableSelections.Keys == old(tableSelections.Keys) - (set k | k in destroyed[..i])
        invariant forall k :: k in tableSelections ==> tableSelections[k] == old(tableSelections[k])
        invariant forall k :: k in old(tableSelections) && k in destroyed[..i] ==> old(tableSelections[k]).released
        invariant forall j :: i <= j < |pending| ==>
          && pending[j].0 == destroyed[j]
          && (pending[j].1.Some? <==> destroyed[j] in tableSelections)
          && (pending[j].1.Some? ==> pending[j].1.value == tableSelections[destroyed[j]])
      {
        assert destroyed[..i + 1] == destroyed[..i] + [destroyed[i]];
        CleanUp(pending[i].0, pending[i].1);
      }
      assert destroyed[..|destroyed|] == destroyed;
    }

    /** `getTableSelection` over the destroyed keys, all looked up before any clean-up. */
    function GetTableSelections(keys: seq<Key>): (r: seq<(Key, Option<TableSelection>)>)
      reads this
      ensures |r| == |keys|
      ensures forall i :: 0 <= i < |keys| ==>
        r[i].0 == keys[i] && (r[i].1.Some? <==> keys[i] in tableSelections) &&
        (r[i].1.Some? ==> r[i].1.value == tableSelections[keys[i]])
    {
      seq(|keys|, i requires 0 <= i < |keys| reads this =>
        (keys[i], if keys[i] in tableSelections then Some(tableSelections[keys[i]]) else None))
    }

    /** `cleanUp`: a key without a handle is skipped; otherwise its handle is
        released and the key removed, and no other entry changes. */
    method CleanUp(nodeKey: Key, tableSelection: Option<TableSelection>)
      requires Valid() && mounted
      requires tableSelection.Some? <==> nodeKey in tableSelections
      requires tableSelection.Some? ==> tableSelection.value == tableSelections[nodeKey]
      modifies this`tableSelections, if tableSelection.Some? then {tableSelection.value} else {}
      ensures Valid() && mounted
      ensures tableSelections == old(tableSelections) - {nodeKey}
      ensures tableSelection.Some? ==> tableSelection.value.released
    {
      if tableSelection.None? {
        return;
      }
      tableSelection.value.RemoveListeners();
      tableSelections := tableSelections - {nodeKey};
    }

    /**
     * The effect's clean-up: the mutation listener is unregistered, then
     * every handle still in the map is released. The map itself is left as
     * it is; the next mount starts from a new one.
     */
    method Teardown()
      requires Valid() && mounted
      modifies this`mounted, tableSelections.Values
      ensures Valid() && !mounted
      ensures tableSelections == old(tableSelections)
      ensures forall k :: k in tableSelections ==> tableSelections[k].released
    {
      mounted := false;
      var remaining := tableSelections.Keys;
      while remaining != {}
        invariant remaining <= tableSelections.Keys
        invariant Valid() && !mounted
        invariant forall k :: k in tableSelections && k !in remaining ==> tableSelections[k].released
        decreases remaining
      {
        var k :| k in remaining;
        tableSelections[k].RemoveListeners();
        remaining := remaining - {k};
      }
    }
  }
}
