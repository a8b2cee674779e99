/**
 * `DataBinder`: the base of every component that rebuilds when its data
 * changes.  It caches its depth in the scene tree (`HierarchyLevel`), which is
 * the bucket `DataBinding.LateRebuild` queues it in, and flips an
 * `_isInitialized` flag as it is enabled, disabled and re-validated.
 */
module DataBinders {
  import opened Wrappers
  import opened Scene
  import opened References
  import opened Bindings

  class DataBinder {
    /** The binder itself, as the registry and the rebuild queue know it. */
    const id: BinderId
    /** The node of the binder's game object. */
    const node: NodeId
    /** `_hierarchyLevel`: 0 until a non-root depth has been counted. */
    var hierarchyLevel: int
    /** `_isInitialized` */
    var isInitialized: bool

    constructor (id: BinderId, node: NodeId)
      ensures this.id == id && this.node == node
      ensures hierarchyLevel == 0 && !isInitialized
    {
      this.id := id;
      this.node := node;
      hierarchyLevel := 0;
      isInitialized := false;
    }

    /** The level the `HierarchyLevel` getter reports for the tree `t`: the cache once it is set. */
    function Level(t: Tree): int
      requires t.Valid()
      reads this
    {
      if hierarchyLevel == 0 then Depth(t, node) else hierarchyLevel
    }

    /** The cache is unset or holds the node's depth in `t` (it goes stale when the node moves). */
    predicate CacheAgrees(t: Tree)
      requires t.Valid()
      reads this
    {
      hierarchyLevel == 0 || hierarchyLevel == Depth(t, node)
    }

    /**
     * `HierarchyLevel`: while the cache is 0, count the ancestors by walking
     * the parent chain and store the count; a non-zero count is returned as
     * it is, without looking at the tree again.
     */
    method HierarchyLevel(t: Tree) returns (r: int)
      requires t.Valid()
      modifies this`hierarchyLevel
      ensures r == old(Level(t)) && hierarchyLevel == r
      ensures old(hierarchyLevel) == 0 ==> r == Depth(t, node)
      ensures old(hierarchyLevel) != 0 ==> r == old(hierarchyLevel)
      ensures old(CacheAgrees(t)) ==> r == Depth(t, node) && CacheAgrees(t)
    {
      if hierarchyLevel == 0 {
        var parent: Option<NodeId> := if node in t.parent then Some(t.parent[node]) else None;
        var i := 0;
        while true
          invariant parent.None? ==> i == Depth(t, node)
          invariant parent.Some? ==> i + 1 + Depth(t, parent.value) == Depth(t, node)
          decreases if parent.Some? then t.Rank(parent.value) + 1 else 0
        {
          if parent.None? {
            hierarchyLevel := i;
            break;
          }
          parent := if parent.value in t.parent then Some(t.parent[parent.value]) else None;
          i := i + 1;
        }
      }
      r := hierarchyLevel;
    }

    /** `SetDirty(force)`: `DataBinding.LateRebuild(this, force)`, which queues the binder at its level. */
    method SetDirty(db: DataBinding, t: Tree, force: bool)
      requires t.Valid()
      modifies this`hierarchyLevel, db`rebuildList, db`rebuildCompleted
      ensures hierarchyLevel == old(Level(t))
      ensures forall d, x :: Listed(db.rebuildList, d, x) <==> Listed(old(db.rebuildList), d, x) || (d == hierarchyLevel && x == id)
      ensures db.rebuildCompleted == if force then old(db.rebuildCompleted) - {id} else old(db.rebuildCompleted)
    {
      var level := HierarchyLevel(t);
      db.LateRebuild(id, level, force);
    }

    /** `Initialize`: queue the binder (not forced), then mark it initialized. */
    method Initialize(db: DataBinding, t: Tree)
      requires t.Valid()
      modifies this`hierarchyLevel, this`isInitialized, db`rebuildList, db`rebuildCompleted
      ensures isInitialized && hierarchyLevel == old(Level(t))
      ensures forall d, x :: Listed(db.rebuildList, d, x) <==> Listed(old(db.rebuildList), d, x) || (d == hierarchyLevel && x == id)
      ensures db.rebuildCompleted == old(db.rebuildCompleted)
    {
      SetDirty(db, t, false);
      isInitialized := true;
    }

    /**
     * `Release`: clear the flag and take the binder out of every bucket's
     * trie; the trie nodes stay.
     */
    method Release(db: DataBinding)
      requires db.Valid()
      modifies this`isInitialized, db.tries
      ensures !isInitialized && db.Valid()
      ensures forall s, q :: s in db.references ==> db.BindersOf(s, q) == old(db.BindersOf(s, q)) - {id}
      ensures forall s :: s in db.references ==> db.NodesOf(s) == old(db.NodesOf(s))
    {
      isInitialized := false;
      db.Unregister(id);
    }

    /** `OnValidate`: an initialized binder is released and initialized again; any other is left alone. */
    method OnValidate(db: DataBinding, t: Tree)
      requires db.Valid() && t.Valid()
      modifies this`hierarchyLevel, this`isInitialized, db`rebuildList, db`rebuildCompleted, db.tries
      ensures db.Valid()
      ensures isInitialized == old(isInitialized)
      ensures !old(isInitialized) ==>
        hierarchyLevel == old(hierarchyLevel) && db.rebuildList == old(db.rebuildList)
        && forall s, q :: s in db.references ==> db.BindersOf(s, q) == old(db.BindersOf(s, q))
      ensures old(isInitialized) ==>
        hierarchyLevel == old(Level(t))
        && (forall d, x :: Listed(db.rebuildList, d, x) <==> Listed(old(db.rebuildList), d, x) || (d == hierarchyLevel && x == id))
        && forall s, q :: s in db.references ==> db.BindersOf(s, q) == old(db.BindersOf(s, q)) - {id}
      ensures db.rebuildCompleted == old(db.rebuildCompleted)
      ensures forall s :: s in db.references ==> db.NodesOf(s) == old(db.NodesOf(s))
    {
      if isInitialized {
        Release(db);
        Initialize(db, t);
      }
    }
  }
}
