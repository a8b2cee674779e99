/**
 * `AliasGroup`: a binder that names a data path (its alias) for the `*` keys
 * of the binders below it, and may hold the value found there.
 */
module AliasGroups {
  import opened Wrappers
  import opened Values
  import opened Scene
  import opened BindingReferences
  import opened Bindings
  import opened DataBinders

  class AliasGroup {
    /** The `DataBinder` part of the group. */
    const binder: DataBinder
    /** `_alias` */
    var alias: string
    /** `_value`: `Null` while nothing is held. */
    var value: Value

    constructor (binder: DataBinder)
      ensures this.binder == binder && alias == "" && value == Null
    {
      this.binder := binder;
      alias := "";
      value := Null;
    }

    /**
     * The `Alias` setter: the alias it already has changes nothing and queues
     * nothing; a different one is stored, drops the held value and marks the
     * group dirty.
     */
    method SetAlias(db: DataBinding, t: Tree, a: string)
      requires t.Valid()
      modifies this`alias, this`value, binder`hierarchyLevel, db`rebuildList, db`rebuildCompleted
      ensures a == old(alias) ==>
        alias == old(alias) && value == old(value) && binder.hierarchyLevel == old(binder.hierarchyLevel)
        && db.rebuildList == old(db.rebuildList)
      ensures a != old(alias) ==>
        alias == a && value == Null && binder.hierarchyLevel == old(binder.Level(t))
        && forall d, x :: Listed(db.rebuildList, d, x) <==>
             Listed(old(db.rebuildList), d, x) || (d == binder.hierarchyLevel && x == binder.id)
      ensures db.rebuildCompleted == old(db.rebuildCompleted)
    {
      if alias != a {
        alias := a;
        value := Null;
        binder.SetDirty(db, t, false);
      }
    }

    /**
     * `_value ?? DataBinding.GetValue(key, gameObject)` where `key` is the
     * group's (virtual) `Alias`: the held value when there is one, otherwise
     * the value of `key` looked up from the group's own node.
     */
    method Lookup(db: DataBinding, t: Tree, aliases: map<NodeId, string>, heap: Heap, key: string)
      returns (r: Outcome<Value>)
      requires t.Valid() && db.Valid()
      modifies db.buckets`cache
      ensures db.Valid()
      ensures value != Null ==> r == Ok(value) && forall b :: b in db.buckets ==> b.cache == old(b.cache)
      ensures value == Null && db.Target(t, aliases, key, Some(binder.node)).None? ==> r == Ok(Null)
      ensures value == Null && db.Target(t, aliases, key, Some(binder.node)).Some? ==>
        var s := db.Target(t, aliases, key, Some(binder.node)).value;
        old(Consistent(db.Roots()[s], heap, db.references[s].cache)) ==>
          r == Resolve(db.Roots()[s], heap, KeyList(t, aliases, key, Some(binder.node)))
      ensures value == Null && db.Target(t, aliases, key, Some(binder.node)).Some? ==>
        (r, db.references[db.Target(t, aliases, key, Some(binder.node)).value].cache) == old(db.Fetch(t, aliases, heap, key, Some(binder.node)))
      ensures forall b: DataBindingReference ::
        old(allocated(b)) && (value != Null || db.Target(t, aliases, key, Some(binder.node)).None? || b != db.references[db.Target(t, aliases, key, Some(binder.node)).value])
        ==> b.cache == old(b.cache)
    {
      if value != Null {
        return Ok(value);
      }
      r := db.GetValue(t, aliases, heap, key, Some(binder.node));
    }

    /** `Value` of a plain alias group: the lookup of its own alias. */
    method Value(db: DataBinding, t: Tree, aliases: map<NodeId, string>, heap: Heap) returns (r: Outcome<Value>)
      requires t.Valid() && db.Valid()
      modifies db.buckets`cache
      ensures db.Valid()
      ensures value != Null ==> r == Ok(value)
      ensures value == Null && db.Target(t, aliases, alias, Some(binder.node)).None? ==> r == Ok(Null)
      ensures value == Null && db.Target(t, aliases, alias, Some(binder.node)).Some? ==>
        var s := db.Target(t, aliases, alias, Some(binder.node)).value;
        old(Consistent(db.Roots()[s], heap, db.references[s].cache)) ==>
          r == Resolve(db.Roots()[s], heap, KeyList(t, aliases, alias, Some(binder.node)))
      ensures value == Null && db.Target(t, aliases, alias, Some(binder.node)).Some? ==>
        (r, db.references[db.Target(t, aliases, alias, Some(binder.node)).value].cache) == old(db.Fetch(t, aliases, heap, alias, Some(binder.node)))
      ensures forall b: DataBindingReference ::
        old(allocated(b)) && (value != Null || db.Target(t, aliases, alias, Some(binder.node)).None? || b != db.references[db.Target(t, aliases, alias, Some(binder.node)).value])
        ==> b.cache == old(b.cache)
    {
      r := Lookup(db, t, aliases, heap, alias);
    }
  }
}
