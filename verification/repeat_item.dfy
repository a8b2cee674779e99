/**
 * `RepeatItem`: the alias group a `Repeater` puts in front of one element of
 * its list.  Its `Alias` is the repeater's target followed by the element's
 * data index, so the `*` keys below it reach that element.
 */
module RepeatItems {
  import opened Wrappers
  import opened Text
  import opened Values
  import opened Scene
  import opened BindingReferences
  import opened Bindings
  import opened DataBinders
  import opened AliasGroups

  /** The alias of an item with base alias `alias` showing element `dataIndex`. */
  function ItemAlias(alias: string, dataIndex: int): (r: string)
    ensures Split(r) == Split(alias) + [IntToString(dataIndex)]
  {
    IntTextHasNoDelimiter(dataIndex);
    SplitSuffix(alias, IntToString(dataIndex));
    alias + [Delimiter] + IntToString(dataIndex)
  }

  /** The index text never holds a `.`: it has digits and at most a leading `-`. */
  lemma IntTextHasNoDelimiter(i: int)
    ensures Delimiter !in IntToString(i)
  {
    var n := if i < 0 then -i else i;
    assert forall k :: 0 <= k < |Digits(n)| ==> Digits(n)[k] != Delimiter;
    if i < 0 {
      assert IntToString(i) == "-" + Digits(n);
    }
  }

  /** A delimiter-free tail after a `.` becomes the last segment, whatever comes before. */
  lemma {:induction false} SplitSuffix(x: string, tail: string)
    requires Delimiter !in tail
    ensures Split(x + [Delimiter] + tail) == Split(x) + [tail]
    decreases |x|
  {
    if x == [] {
      assert x + [Delimiter] + tail == [Delimiter] + tail;
      assert ([Delimiter] + tail)[1..] == tail;
      SplitSingle(tail);
    } else {
      assert (x + [Delimiter] + tail)[0] == x[0];
      assert (x + [Delimiter] + tail)[1..] == x[1..] + [Delimiter] + tail;
      SplitSuffix(x[1..], tail);
      var rest := Split(x[1..]);
      assert (rest + [tail])[0] == rest[0];
      assert (rest + [tail])[1..] == rest[1..] + [tail];
    }
  }

  class RepeatItem {
    /** The `AliasGroup` part of the item. */
    const group: AliasGroup
    /** `_dataIndex`: -1 while released. */
    var dataIndex: int
    /** `_index`: -1 while released. */
    var index: int
    /** Whether the item's game object is active. */
    var active: bool

    constructor (group: AliasGroup)
      ensures this.group == group && dataIndex == -1 && index == -1 && active
    {
      this.group := group;
      dataIndex := -1;
      index := -1;
      active := true;
    }

    /** The overridden `Alias` getter: the stored alias, a `.`, then the data index. */
    function Alias(): string
      reads this, group
    {
      ItemAlias(group.alias, dataIndex)
    }

    /**
     * `InitializeItem(alias, dataIndex, index)`: store all three without going
     * through the alias setter, drop the held value and mark the item dirty.
     */
    method InitializeItem(db: DataBinding, t: Tree, alias: string, dataIndex: int, index: int)
      requires t.Valid()
      modifies this`dataIndex, this`index, group`alias, group`value, group.binder`hierarchyLevel,
        db`rebuildList, db`rebuildCompleted
      ensures group.alias == alias && this.dataIndex == dataIndex && this.index == index && group.value == Null
      ensures Alias() == alias + [Delimiter] + IntToString(dataIndex)
      ensures group.binder.hierarchyLevel == old(group.binder.Level(t))
      ensures forall d, x :: Listed(db.rebuildList, d, x) <==>
        Listed(old(db.rebuildList), d, x) || (d == group.binder.hierarchyLevel && x == group.binder.id)
      ensures db.rebuildCompleted == old(db.rebuildCompleted)
    {
      group.alias := alias;
      this.dataIndex := dataIndex;
      this.index := index;
      group.value := Null;
      group.binder.SetDirty(db, t, false);
    }

    /** `ReleaseItem`: back to the released state, without marking anything dirty. */
    method ReleaseItem()
      modifies this`dataIndex, this`index, group`alias, group`value
      ensures group.alias == "" && dataIndex == -1 && index == -1 && group.value == Null
    {
      group.alias := "";
      dataIndex := -1;
      index := -1;
      group.value := Null;
    }

    /** `Value`, looked up through the overridden `Alias`: the element the item shows. */
    method Value(db: DataBinding, t: Tree, aliases: map<NodeId, string>, heap: Heap) returns (r: Outcome<Value>)
      requires t.Valid() && db.Valid()
      modifies db.buckets`cache
      ensures db.Valid()
      ensures group.value != Null ==> r == Ok(group.value)
      ensures group.value == Null && db.Target(t, aliases, Alias(), Some(group.binder.node)).None? ==> r == Ok(Null)
      ensures group.value == Null && db.Target(t, aliases, Alias(), Some(group.binder.node)).Some? ==>
        var s := db.Target(t, aliases, Alias(), Some(group.binder.node)).value;
        old(Consistent(db.Roots()[s], heap, db.references[s].cache)) ==>
          r == Resolve(db.Roots()[s], heap, KeyList(t, aliases, Alias(), Some(group.binder.node)))
      ensures group.value == Null && db.Target(t, aliases, Alias(), Some(group.binder.node)).Some? ==>
        (r, db.references[db.Target(t, aliases, Alias(), Some(group.binder.node)).value].cache) == old(db.Fetch(t, aliases, heap, Alias(), Some(group.binder.node)))
      ensures forall b: DataBindingReference ::
        old(allocated(b)) && (group.value != Null || db.Target(t, aliases, Alias(), Some(group.binder.node)).None? || b != db.references[db.Target(t, aliases, Alias(), Some(group.binder.node)).value])
        ==> b.cache == old(b.cache)
    {
      r := group.Lookup(db, t, aliases, heap, Alias());
    }

    /** `GetParent`: the nearest node at or above the item that holds a `Repeater`. */
    method GetParent(t: Tree, repeaters: set<NodeId>) returns (r: Option<NodeId>)
      requires t.Valid()
      ensures r == Nearest(t, repeaters, group.binder.node)
    {
      r := GetComponentInParentIncludeInactive(t, repeaters, group.binder.node);
    }
  }
}
