/**
 * The scene tree the binders live in (Unity's `Transform.parent` chain) and the
 * nearest self-or-ancestor search `GetComponentInParentIncludeInactive`.
 */
module Scene {
  import opened Wrappers

  type NodeId = nat

  /**
   * A finite parent map.  `rank` is a witness that the map is acyclic: every
   * parent has a strictly smaller rank than its child.  Nodes without a parent
   * are roots.
   */
  datatype Tree = Tree(parent: map<NodeId, NodeId>, rank: map<NodeId, nat>)
  {
    predicate Valid() {
      forall n :: n in parent ==> n in rank && parent[n] in rank && rank[parent[n]] < rank[n]
    }

    function Rank(n: NodeId): nat {
      if n in rank then rank[n] else 0
    }

    predicate IsRoot(n: NodeId) {
      n !in parent
    }
  }

  /** The strict ancestors of `n`, nearest first (its parent, its grandparent, ...). */
  function Ancestors(t: Tree, n: NodeId): seq<NodeId>
    requires t.Valid()
    decreases t.Rank(n)
  {
    if n in t.parent then [t.parent[n]] + Ancestors(t, t.parent[n]) else []
  }

  /** `n` followed by its ancestors: the nodes a parent-chain walk from `n` visits. */
  function Chain(t: Tree, n: NodeId): (r: seq<NodeId>)
    requires t.Valid()
    ensures |r| >= 1 && r[0] == n
  {
    [n] + Ancestors(t, n)
  }

  /** The number of ancestors of `n`: 0 for a root. */
  function Depth(t: Tree, n: NodeId): nat
    requires t.Valid()
  {
    |Ancestors(t, n)|
  }

  /** Ranks strictly decrease along the parent chain, so the chain never repeats a node. */
  lemma {:induction false} ChainDescends(t: Tree, n: NodeId, i: nat, j: nat)
    requires t.Valid()
    requires i < j < |Chain(t, n)|
    ensures t.Rank(Chain(t, n)[j]) < t.Rank(Chain(t, n)[i])
    ensures Chain(t, n)[i] != Chain(t, n)[j]
    decreases t.Rank(n)
  {
    var p := t.parent[n];
    assert Chain(t, n) == [n] + Chain(t, p);
    if i == 0 {
      if j > 1 {
        ChainDescends(t, p, 0, j - 1);
      }
    } else {
      ChainDescends(t, p, i - 1, j - 1);
    }
  }

  /** The last node of every chain is a root: the walk ends there. */
  lemma {:induction false} ChainEndsAtRoot(t: Tree, n: NodeId)
    requires t.Valid()
    ensures t.IsRoot(Chain(t, n)[|Chain(t, n)| - 1])
    decreases t.Rank(n)
  {
    if n in t.parent {
      ChainEndsAtRoot(t, t.parent[n]);
      assert Chain(t, n) == [n] + Chain(t, t.parent[n]);
    }
  }

  /** The first node of the chain from `n` that is in `holders`, if any. */
  function Nearest(t: Tree, holders: set<NodeId>, n: NodeId): Option<NodeId>
    requires t.Valid()
    decreases t.Rank(n)
  {
    if n in holders then Some(n)
    else if n in t.parent then Nearest(t, holders, t.parent[n])
    else None
  }

  /**
   * `Nearest` is the first holder on the chain: it returns the starting node when
   * that holds the component, otherwise the nearest ancestor that does, and none
   * when no node of the chain does.  Only chain nodes are ever returned.
   */
  lemma {:induction false} NearestIsFirstOnChain(t: Tree, holders: set<NodeId>, n: NodeId)
    requires t.Valid()
    ensures n in holders ==> Nearest(t, holders, n) == Some(n)
    ensures Nearest(t, holders, n).None? <==> forall i :: 0 <= i < |Chain(t, n)| ==> Chain(t, n)[i] !in holders
    ensures Nearest(t, holders, n).Some? ==>
      exists k :: 0 <= k < |Chain(t, n)| && Chain(t, n)[k] == Nearest(t, holders, n).value
        && Chain(t, n)[k] in holders && forall i :: 0 <= i < k ==> Chain(t, n)[i] !in holders
    decreases t.Rank(n)
  {
    if n !in holders && n in t.parent {
      var p := t.parent[n];
      NearestIsFirstOnChain(t, holders, p);
      assert Chain(t, n) == [n] + Chain(t, p);
      if Nearest(t, holders, p).Some? {
        var k :| 0 <= k < |Chain(t, p)| && Chain(t, p)[k] == Nearest(t, holders, p).value
          && Chain(t, p)[k] in holders && forall i :: 0 <= i < k ==> Chain(t, p)[i] !in holders;
        assert Chain(t, n)[k + 1] == Chain(t, p)[k];
        assert forall i :: 0 <= i < k + 1 ==> Chain(t, n)[i] !in holders by {
          forall i | 0 <= i < k + 1 ensures Chain(t, n)[i] !in holders {
            if i > 0 {
              assert Chain(t, n)[i] == Chain(t, p)[i - 1];
            }
          }
        }
      } else {
        forall i | 0 <= i < |Chain(t, n)| ensures Chain(t, n)[i] !in holders {
          if i > 0 {
            assert Chain(t, n)[i] == Chain(t, p)[i - 1];
          }
        }
      }
    } else if n !in holders {
      assert Chain(t, n) == [n];
    } else {
      assert Chain(t, n)[0] == n;
    }
  }

  /** The node `Nearest` finds holds the component and is `n` or above it. */
  lemma {:induction false} NearestRank(t: Tree, holders: set<NodeId>, n: NodeId)
    requires t.Valid()
    ensures Nearest(t, holders, n).Some? ==>
      Nearest(t, holders, n).value in holders && t.Rank(Nearest(t, holders, n).value) <= t.Rank(n)
    decreases t.Rank(n)
  {
    if n !in holders && n in t.parent {
      NearestRank(t, holders, t.parent[n]);
    }
  }

  /**
   * `TransformExtensions.GetComponentInParentIncludeInactive`: walk from `start`
   * up the parent chain and return the first node that holds the component.
   */
  method GetComponentInParentIncludeInactive(t: Tree, holders: set<NodeId>, start: NodeId)
    returns (r: Option<NodeId>)
    requires t.Valid()
    ensures r == Nearest(t, holders, start)
  {
    var node := start;
    while true
      invariant Nearest(t, holders, node) == Nearest(t, holders, start)
      decreases t.Rank(node)
    {
      if node in holders {
        return Some(node);
      }
      if node !in t.parent {
        return None;
      }
      node := t.parent[node];
    }
  }
}
